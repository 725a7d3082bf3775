/*
 * What a change of the selection switches on and off: whether the selected
 * rows may be dragged (and, if so, which rows a drop moves), which menu and
 * toolbar entries are sensitive, and the text fields of a single selected
 * row.  The selection is given as the paths of the selected rows in tree
 * order, as GTK lists them.
 */
module Selecting {
  import opened Rows
  import opened Tree
  import opened Find
  import opened Kickshaw
  import opened DragAndDrop
  import opened Globals

  // ---------------------------------------------------------------------
  // Descendants of a row.

  /** The walk below the row at `p` visits exactly the descendants of that
      row. */
  lemma {:induction false} DescendantPaths(f: seq<Node>, p: Path, d: Path)
    requires ValidPath(f, p)
    ensures Below(NodeAt(f, p).children, p, d) <==> IsAncestor(p, d) && ValidPath(f, d)
    ensures Below(NodeAt(f, p).children, p, d) ==> NodeAt(NodeAt(f, p).children, d[|p|..]) == NodeAt(f, d)
    decreases |p|
  {
    if |d| > |p| && d[0] == p[0] && |p| > 1 {
      var c := f[p[0]].children;
      DescendantPaths(c, p[1..], d[1..]);
      assert d[1..][..|p| - 1] == d[..|p|][1..];
      assert d[1..][|p| - 1..] == d[|p|..];
      assert d[..|p|] == p <==> d[1..][..|p| - 1] == p[1..] by {
        if d[1..][..|p| - 1] == p[1..] {
          assert d[..|p|] == [d[0]] + d[1..][..|p| - 1];
          assert p == [p[0]] + p[1..];
        }
      }
    } else if |d| > |p| && d[0] == p[0] {
      assert d[1..] == d[|p|..];
    } else if |d| > |p| {
      assert d[..|p|][0] != p[0];
    }
  }

  /** `check_for_selected_dsct` run over the descendants of the row at `p`:
      whether one of them is selected.  The walk stops at the first one. */
  method SelectedDescendant(f: seq<Node>, sel: seq<Path>, p: Path) returns (found: bool)
    requires ValidPath(f, p) && SourcesValid(f, sel)
    ensures found <==> exists b :: 0 <= b < |sel| && IsAncestor(p, sel[b])
  {
    var ds := Paths(NodeAt(f, p).children, p);
    found := false;
    var k := 0;
    while k < |ds| && !found
      invariant 0 <= k <= |ds|
      invariant found <==> exists j :: 0 <= j < k && ds[j] in sel
    {
      found := ds[k] in sel;
      k := k + 1;
    }
    if found {
      var j :| 0 <= j < k && ds[j] in sel;
      PathsBelow(NodeAt(f, p).children, p, ds[j]);
      DescendantPaths(f, p, ds[j]);
      var b :| 0 <= b < |sel| && sel[b] == ds[j];
    } else {
      forall b | 0 <= b < |sel| && IsAncestor(p, sel[b])
        ensures sel[b] in ds
      {
        DescendantPaths(f, p, sel[b]);
        BelowInPaths(NodeAt(f, p).children, p, sel[b]);
      }
    }
  }

  /** Some descendant of the row at `p` has no label and is not a
      separator: it is shown as invisible. */
  ghost predicate UnlabelledBelow(f: seq<Node>, p: Path) {
    exists d :: IsAncestor(p, d) && ValidPath(f, d) && IsUnlabelled(NodeAt(f, d).row)
  }

  /** `check_if_invisible_descendant_exists` run over the descendants of the
      row at `p`; the walk stops at the first unlabelled one. */
  method ScanInvisibleDescendants(f: seq<Node>, p: Path) returns (found: bool)
    requires ValidPath(f, p)
    ensures found <==> UnlabelledBelow(f, p)
  {
    var cs := NodeAt(f, p).children;
    var ds := Paths(cs, p);
    forall j | 0 <= j < |ds| ensures Below(cs, p, ds[j]) {
      PathsBelow(cs, p, ds[j]);
    }
    found := false;
    var k := 0;
    while k < |ds| && !found
      invariant 0 <= k <= |ds|
      invariant found <==> exists j :: 0 <= j < k && IsUnlabelled(NodeAt(cs, ds[j][|p|..]).row)
    {
      found := IsUnlabelled(NodeAt(cs, ds[k][|p|..]).row);
      k := k + 1;
    }
    if found {
      var j :| 0 <= j < k && IsUnlabelled(NodeAt(cs, ds[j][|p|..]).row);
      DescendantPaths(f, p, ds[j]);
    } else {
      forall d | IsAncestor(p, d) && ValidPath(f, d)
        ensures d in ds && NodeAt(cs, d[|p|..]) == NodeAt(f, d)
      {
        DescendantPaths(f, p, d);
        BelowInPaths(cs, p, d);
      }
    }
  }

  // ---------------------------------------------------------------------
  // Whether a multiple selection may be dragged.

  /** The option names the drag check counts: those of Execute, then those
      of startupnotify. */
  const ALL_OPTIONS := EXECUTE_OPTIONS + STARTUPNOTIFY_OPTIONS

  /** Rows that are neither menu-level rows nor actions: options and option
      blocks, and rows of no known type. */
  predicate IsOptionBranch(t: RowType) {
    !IsMenuLevel(t) && t != Action
  }

  /** The selected row `r` is an option named `name`. */
  predicate SelectedOption(r: Row, name: string) {
    IsOptionBranch(r.rtype) && r.element == Some(name)
  }

  function SelectedRows(f: seq<Node>, sel: seq<Path>): (rs: seq<Row>)
    requires SourcesValid(f, sel)
    ensures |rs| == |sel| && forall a :: 0 <= a < |sel| ==> rs[a] == NodeAt(f, sel[a]).row
  {
    seq(|sel|, a requires 0 <= a < |sel| => NodeAt(f, sel[a]).row)
  }

  /** The reasons for blocking a drag, one flag each, in the order of the
      status bar message. */
  datatype Reasons = Reasons(
    rowAndDescendant: bool,
    menuLevelAndActionOrOption: bool,
    actionAndOption: bool,
    executeAndStartupnotifyOption: bool,
    optionTwice: bool)

  predicate Blocked(r: Reasons) {
    r.rowAndDescendant || r.menuLevelAndActionOrOption || r.actionAndOption ||
    r.executeAndStartupnotifyOption || r.optionTwice
  }

  /** When a selection may not be dragged: a selected row has a selected
      descendant; menu-level rows are selected together with actions or
      options; actions together with options; an option of Execute together
      with an option of startupnotify; or the same option twice. */
  function BlockingReasons(f: seq<Node>, sel: seq<Path>): Reasons
    requires SourcesValid(f, sel)
  {
    var rs := SelectedRows(f, sel);
    Reasons(
      exists a, b :: 0 <= a < |sel| && 0 <= b < |sel| && IsAncestor(sel[a], sel[b]),
      (exists a :: 0 <= a < |rs| && IsMenuLevel(rs[a].rtype)) &&
        (exists b :: 0 <= b < |rs| && !IsMenuLevel(rs[b].rtype)),
      (exists a :: 0 <= a < |rs| && rs[a].rtype == Action) &&
        (exists b :: 0 <= b < |rs| && IsOptionBranch(rs[b].rtype)),
      (exists a :: 0 <= a < |rs| && IsOptionBranch(rs[a].rtype) && StrIn(rs[a].element, EXECUTE_OPTIONS)) &&
        (exists b :: 0 <= b < |rs| && IsOptionBranch(rs[b].rtype) && StrIn(rs[b].element, STARTUPNOTIFY_OPTIONS)),
      exists a, b :: 0 <= a < b < |rs| && Twice(rs, a, b))
  }

  /** The selected rows `a` and `b` are the same option. */
  predicate Twice(rs: seq<Row>, a: nat, b: nat)
    requires a < |rs| && b < |rs|
  {
    IsOptionBranch(rs[a].rtype) && IsOptionBranch(rs[b].rtype) &&
    StrIn(rs[a].element, ALL_OPTIONS) && rs[a].element == rs[b].element
  }

  /** A single row can always be dragged. */
  lemma SingleSelectionNeverBlocked(f: seq<Node>, sel: seq<Path>)
    requires SourcesValid(f, sel) && |sel| <= 1
    ensures !Blocked(BlockingReasons(f, sel))
  {
    var rs := SelectedRows(f, sel);
    if |sel| == 1 {
      assert !IsAncestor(sel[0], sel[0]);
      if StrIn(rs[0].element, EXECUTE_OPTIONS) {
        assert !StrIn(rs[0].element, STARTUPNOTIFY_OPTIONS);
      }
    }
  }

  /** A selection that may be dragged has no row together with one of its
      descendants, which drag and drop relies on. */
  lemma AllowedSelectionDisjoint(f: seq<Node>, sel: seq<Path>)
    requires SourcesValid(f, sel) && !Blocked(BlockingReasons(f, sel))
    ensures Disjoint(sel)
  {
    forall a, b | 0 <= a < b < |sel| ensures !IsAncestor(sel[a], sel[b]) {
      assert !BlockingReasons(f, sel).rowAndDescendant;
    }
  }

  /** How many of the first `k` selected rows are the option `name`. */
  function Count(rs: seq<Row>, k: nat, name: string): nat
    requires k <= |rs|
  {
    if k == 0 then 0 else Count(rs, k - 1, name) + (if SelectedOption(rs[k - 1], name) then 1 else 0)
  }

  lemma {:induction false} CountPositive(rs: seq<Row>, k: nat, name: string)
    requires k <= |rs|
    ensures Count(rs, k, name) >= 1 <==> exists a :: 0 <= a < k && SelectedOption(rs[a], name)
  {
    if k > 0 {
      CountPositive(rs, k - 1, name);
    }
  }

  /** A row without children has no selected descendant. */
  lemma Childless(f: seq<Node>, sel: seq<Path>, k: nat)
    requires SourcesValid(f, sel) && k < |sel| && NodeAt(f, sel[k]).children == []
    ensures forall b :: 0 <= b < |sel| ==> !IsAncestor(sel[k], sel[b])
  {
    forall b | 0 <= b < |sel| ensures !IsAncestor(sel[k], sel[b]) {
      DescendantPaths(f, sel[k], sel[b]);
    }
  }

  /** The `k`-th selected row repeats an earlier option exactly when its
      name had been counted before. */
  lemma TwiceStep(rs: seq<Row>, k: nat)
    requires k < |rs|
    ensures (exists a, b :: 0 <= a < b < k + 1 && Twice(rs, a, b)) <==>
      (exists a, b :: 0 <= a < b < k && Twice(rs, a, b)) ||
      (IsOptionBranch(rs[k].rtype) &&
       exists c :: 0 <= c < |ALL_OPTIONS| && rs[k].element == Some(ALL_OPTIONS[c]) && Count(rs, k, ALL_OPTIONS[c]) >= 1)
  {
    forall c | 0 <= c < |ALL_OPTIONS| {
      CountPositive(rs, k, ALL_OPTIONS[c]);
    }
    if exists a :: 0 <= a < k && Twice(rs, a, k) {
      var a :| 0 <= a < k && Twice(rs, a, k);
      var c :| 0 <= c < |ALL_OPTIONS| && rs[a].element == Some(ALL_OPTIONS[c]);
      assert SelectedOption(rs[a], ALL_OPTIONS[c]);
    }
    if IsOptionBranch(rs[k].rtype) &&
       exists c :: 0 <= c < |ALL_OPTIONS| && rs[k].element == Some(ALL_OPTIONS[c]) && Count(rs, k, ALL_OPTIONS[c]) >= 1 {
      var c :| 0 <= c < |ALL_OPTIONS| && rs[k].element == Some(ALL_OPTIONS[c]) && Count(rs, k, ALL_OPTIONS[c]) >= 1;
      var a :| 0 <= a < k && SelectedOption(rs[a], ALL_OPTIONS[c]);
      assert Twice(rs, a, k);
    }
  }

  /** One pass of the count over the option names for one selected option
      named `e`: its counter goes up; `twice` tells whether it had been
      counted before, `execute` and `startupnotify` to which action it
      belongs. */
  method CountOption(counts: seq<nat>, e: Option<string>) returns (counts': seq<nat>, twice: bool, execute: bool, startupnotify: bool)
    requires |counts| == |ALL_OPTIONS|
    ensures |counts'| == |ALL_OPTIONS|
    ensures forall c :: 0 <= c < |ALL_OPTIONS| ==>
      counts'[c] == counts[c] + (if e == Some(ALL_OPTIONS[c]) then 1 else 0)
    ensures twice <==> exists c :: 0 <= c < |ALL_OPTIONS| && e == Some(ALL_OPTIONS[c]) && counts[c] >= 1
    ensures execute <==> StrIn(e, EXECUTE_OPTIONS)
    ensures startupnotify <==> StrIn(e, STARTUPNOTIFY_OPTIONS)
  {
    counts' := counts;
    twice, execute, startupnotify := false, false, false;
    var c := 0;
    while c < |ALL_OPTIONS|
      invariant 0 <= c <= |ALL_OPTIONS| && |counts'| == |ALL_OPTIONS|
      invariant forall j :: 0 <= j < |ALL_OPTIONS| ==>
        counts'[j] == counts[j] + (if j < c && e == Some(ALL_OPTIONS[j]) then 1 else 0)
      invariant twice <==> exists j :: 0 <= j < c && e == Some(ALL_OPTIONS[j]) && counts[j] >= 1
      invariant execute <==> exists j :: 0 <= j < c && e == Some(ALL_OPTIONS[j]) && StrIn(e, EXECUTE_OPTIONS)
      invariant startupnotify <==> exists j :: 0 <= j < c && e == Some(ALL_OPTIONS[j]) && !StrIn(e, EXECUTE_OPTIONS)
    {
      if e == Some(ALL_OPTIONS[c]) {
        counts' := counts'[c := counts'[c] + 1];
        if counts'[c] > 1 {
          twice := true;
        }
        if StrIn(e, EXECUTE_OPTIONS) {
          execute := true;
        } else {
          startupnotify := true;
        }
      }
      c := c + 1;
    }
    if StrIn(e, EXECUTE_OPTIONS) {
      var i :| 0 <= i < |EXECUTE_OPTIONS| && EXECUTE_OPTIONS[i] == e.value;
      assert ALL_OPTIONS[i] == EXECUTE_OPTIONS[i];
    }
    if StrIn(e, STARTUPNOTIFY_OPTIONS) {
      var i :| 0 <= i < |STARTUPNOTIFY_OPTIONS| && STARTUPNOTIFY_OPTIONS[i] == e.value;
      assert ALL_OPTIONS[|EXECUTE_OPTIONS| + i] == STARTUPNOTIFY_OPTIONS[i];
    }
  }

  /** The state of the fold of `row_selected` over a multiple selection:
      one flag per kind of selected row and a counter per option name. */
  datatype Flags = Flags(
    descendant: bool, menuLevel: bool, action: bool, option: bool,
    execute: bool, startupnotify: bool, twice: bool, counts: seq<nat>)

  /** The flags after the first `k` selected rows `rs`, at the paths `sel`. */
  ghost predicate FoldedUpTo(sel: seq<Path>, rs: seq<Row>, k: nat, st: Flags)
    requires k <= |sel| == |rs|
  {
    DescendantUpTo(sel, k, st.descendant) && KindsUpTo(rs, k, st) && CountsUpTo(rs, k, st)
  }

  ghost predicate DescendantUpTo(sel: seq<Path>, k: nat, descendant: bool)
    requires k <= |sel|
  {
    descendant <==> exists a, b :: 0 <= a < k && 0 <= b < |sel| && IsAncestor(sel[a], sel[b])
  }

  ghost predicate KindsUpTo(rs: seq<Row>, k: nat, st: Flags)
    requires k <= |rs|
  {
    RowKindsUpTo(rs, k, st) && OptionKindsUpTo(rs, k, st)
  }

  ghost predicate RowKindsUpTo(rs: seq<Row>, k: nat, st: Flags)
    requires k <= |rs|
  {
    (st.menuLevel <==> exists a :: 0 <= a < k && IsMenuLevel(rs[a].rtype)) &&
    (st.action <==> exists a :: 0 <= a < k && rs[a].rtype == Action) &&
    (st.option <==> exists a :: 0 <= a < k && IsOptionBranch(rs[a].rtype))
  }

  ghost predicate OptionKindsUpTo(rs: seq<Row>, k: nat, st: Flags)
    requires k <= |rs|
  {
    (st.execute <==> exists a :: 0 <= a < k && IsOptionBranch(rs[a].rtype) && StrIn(rs[a].element, EXECUTE_OPTIONS)) &&
    (st.startupnotify <==> exists a :: 0 <= a < k && IsOptionBranch(rs[a].rtype) && StrIn(rs[a].element, STARTUPNOTIFY_OPTIONS))
  }

  ghost predicate CountsUpTo(rs: seq<Row>, k: nat, st: Flags)
    requires k <= |rs|
  {
    |st.counts| == |ALL_OPTIONS| &&
    (forall c :: 0 <= c < |ALL_OPTIONS| ==> st.counts[c] == Count(rs, k, ALL_OPTIONS[c])) &&
    (st.twice <==> exists a, b :: 0 <= a < b < k && Twice(rs, a, b))
  }

  /** The kind flags `st'` take in the selected row `r` after `st`. */
  ghost predicate KindsFolded(r: Row, st: Flags, st': Flags) {
    st'.menuLevel == (st.menuLevel || IsMenuLevel(r.rtype)) &&
    st'.action == (st.action || r.rtype == Action) &&
    st'.option == (st.option || IsOptionBranch(r.rtype)) &&
    st'.execute == (st.execute || (IsOptionBranch(r.rtype) && StrIn(r.element, EXECUTE_OPTIONS))) &&
    st'.startupnotify == (st.startupnotify || (IsOptionBranch(r.rtype) && StrIn(r.element, STARTUPNOTIFY_OPTIONS)))
  }

  /** The counters and the repetition flag `st'` take in the selected row
      `r` after `st`. */
  ghost predicate CountsFolded(r: Row, st: Flags, st': Flags)
    requires |st.counts| == |ALL_OPTIONS|
  {
    |st'.counts| == |ALL_OPTIONS| &&
    (forall c :: 0 <= c < |ALL_OPTIONS| ==>
      st'.counts[c] == st.counts[c] + (if SelectedOption(r, ALL_OPTIONS[c]) then 1 else 0)) &&
    st'.twice == (st.twice || (IsOptionBranch(r.rtype) &&
      exists c :: 0 <= c < |ALL_OPTIONS| && r.element == Some(ALL_OPTIONS[c]) && st.counts[c] >= 1))
  }

  lemma KindsStep(rs: seq<Row>, k: nat, st: Flags, st': Flags)
    requires k < |rs| && KindsUpTo(rs, k, st) && KindsFolded(rs[k], st, st')
    ensures KindsUpTo(rs, k + 1, st')
  {
    RowKindsStep(rs, k, st, st');
    OptionKindsStep(rs, k, st, st');
  }

  lemma RowKindsStep(rs: seq<Row>, k: nat, st: Flags, st': Flags)
    requires k < |rs| && RowKindsUpTo(rs, k, st) && KindsFolded(rs[k], st, st')
    ensures RowKindsUpTo(rs, k + 1, st')
  {
  }

  lemma OptionKindsStep(rs: seq<Row>, k: nat, st: Flags, st': Flags)
    requires k < |rs| && OptionKindsUpTo(rs, k, st) && KindsFolded(rs[k], st, st')
    ensures OptionKindsUpTo(rs, k + 1, st')
  {
  }

  lemma CountsStep(rs: seq<Row>, k: nat, st: Flags, st': Flags)
    requires k < |rs| && CountsUpTo(rs, k, st) && CountsFolded(rs[k], st, st')
    ensures CountsUpTo(rs, k + 1, st')
  {
    TwiceStep(rs, k);
  }

  /** The kind flags and counters for one more selected row `r`. */
  method FoldKind(r: Row, st: Flags) returns (st': Flags)
    requires |st.counts| == |ALL_OPTIONS|
    ensures st'.descendant == st.descendant
    ensures KindsFolded(r, st, st') && CountsFolded(r, st, st')
  {
    if IsMenuLevel(r.rtype) {
      st' := st.(menuLevel := true);
    } else if r.rtype == Action {
      st' := st.(action := true);
    } else {
      var counts', again, e, s := CountOption(st.counts, r.element);
      st' := st.(option := true, counts := counts', twice := st.twice || again,
                 execute := st.execute || e, startupnotify := st.startupnotify || s);
      OptionCounted(r, st, st');
    }
  }

  lemma OptionCounted(r: Row, st: Flags, st': Flags)
    requires IsOptionBranch(r.rtype) && |st.counts| == |ALL_OPTIONS| == |st'.counts|
    requires forall c :: 0 <= c < |ALL_OPTIONS| ==>
      st'.counts[c] == st.counts[c] + (if r.element == Some(ALL_OPTIONS[c]) then 1 else 0)
    requires st'.twice == (st.twice || exists c :: 0 <= c < |ALL_OPTIONS| && r.element == Some(ALL_OPTIONS[c]) && st.counts[c] >= 1)
    ensures CountsFolded(r, st, st')
  {
    assert forall c :: 0 <= c < |ALL_OPTIONS| ==> (SelectedOption(r, ALL_OPTIONS[c]) <==> r.element == Some(ALL_OPTIONS[c]));
  }

  /** Whether one of the first `k + 1` selected rows has a selected
      descendant; the search runs only until one is found. */
  method FoldDescendant(f: seq<Node>, sel: seq<Path>, k: nat, descendant: bool) returns (found: bool)
    requires SourcesValid(f, sel) && k < |sel| && DescendantUpTo(sel, k, descendant)
    ensures DescendantUpTo(sel, k + 1, found)
  {
    found := descendant;
    if NodeAt(f, sel[k]).children == [] {
      Childless(f, sel, k);
    } else if !descendant {
      found := SelectedDescendant(f, sel, sel[k]);
    }
  }

  /** The body of the fold for the `k`-th selected row. */
  method FoldRow(f: seq<Node>, sel: seq<Path>, ghost rs: seq<Row>, k: nat, st: Flags) returns (st': Flags)
    requires SourcesValid(f, sel) && rs == SelectedRows(f, sel) && k < |sel|
    requires FoldedUpTo(sel, rs, k, st)
    ensures FoldedUpTo(sel, rs, k + 1, st')
  {
    var found := FoldDescendant(f, sel, k, st.descendant);
    var st1 := FoldKind(NodeAt(f, sel[k]).row, st);
    st' := st1.(descendant := found);
    KindsStep(rs, k, st, st');
    CountsStep(rs, k, st, st');
  }

  /** The fold of `row_selected` over a multiple selection, with the search
      for selected descendants: its flags are exactly the blocking reasons. */
  method CheckDragging(f: seq<Node>, sel: seq<Path>) returns (r: Reasons)
    requires SourcesValid(f, sel)
    ensures r == BlockingReasons(f, sel)
  {
    var st := NO_FLAGS;
    ghost var rs := SelectedRows(f, sel);
    NothingFolded(sel, rs);
    var k := 0;
    while k < |sel|
      invariant 0 <= k <= |sel| && FoldedUpTo(sel, rs, k, st)
    {
      st := FoldRow(f, sel, rs, k, st);
      k := k + 1;
    }
    FoldedReasons(f, sel, rs, st);
    r := ReasonsFrom(st);
  }

  /** The flags before the first selected row: all clear, no option
      counted. */
  const NO_FLAGS := Flags(false, false, false, false, false, false, false, seq(|ALL_OPTIONS|, _ => 0))

  lemma NothingFolded(sel: seq<Path>, rs: seq<Row>)
    requires |sel| == |rs|
    ensures FoldedUpTo(sel, rs, 0, NO_FLAGS)
  {
  }

  /** The blocking reasons the flags of the fold stand for. */
  function ReasonsFrom(st: Flags): Reasons {
    Reasons(st.descendant, st.menuLevel && (st.action || st.option), st.action && st.option,
            st.execute && st.startupnotify, st.twice)
  }

  /** The flags after the whole selection give the blocking reasons. */
  lemma FoldedReasons(f: seq<Node>, sel: seq<Path>, rs: seq<Row>, st: Flags)
    requires SourcesValid(f, sel) && rs == SelectedRows(f, sel) && FoldedUpTo(sel, rs, |sel|, st)
    ensures ReasonsFrom(st) == BlockingReasons(f, sel)
  {
    assert (exists b :: 0 <= b < |rs| && !IsMenuLevel(rs[b].rtype)) <==> st.action || st.option;
  }

  /** The status bar text for a blocked drag: the fixed opening, then one
      text per reason that applies.  It names a reason exactly when the
      drag is blocked. */
  function BlockMessage(r: Reasons): (m: string)
    ensures HasPrefix(m, DRAG_BLOCKED)
    ensures |m| > |DRAG_BLOCKED| <==> Blocked(r)
  {
    DRAG_BLOCKED + ReasonsText(r)
  }

  const DRAG_BLOCKED := "Dragging disabled --- "

  function ReasonsText(r: Reasons): (t: string)
    ensures t == [] <==> !Blocked(r)
  {
    Mention(r.rowAndDescendant, "Row and descendant of it selected   ") +
    Mention(r.menuLevelAndActionOrOption, "Menu/item/separator and action/option selected   ") +
    Mention(r.actionAndOption, "Action and option selected   ") +
    Mention(r.executeAndStartupnotifyOption, "Action option and startupnotify option selected   ") +
    Mention(r.optionTwice, "More than one option of a kind selected   ")
  }

  function Mention(flag: bool, text: string): (t: string)
    requires text != []
    ensures t == [] <==> !flag
  {
    if flag then text else ""
  }

  /** `create_source_paths_for_dnd`: the selected paths are prepended one by
      one to an empty list, which is then reversed.  The dragged rows are
      the selected rows, in their order. */
  method CreateSourcePaths(sel: seq<Path>) returns (ps: seq<Path>)
    ensures ps == sel
  {
    var acc: seq<Path> := [];
    var k := 0;
    while k < |sel|
      invariant 0 <= k <= |sel| && acc == Reverse(sel[..k])
    {
      assert Reverse(sel[..k + 1]) == [sel[k]] + acc by {
        var r := Reverse(sel[..k + 1]);
        forall i | 0 <= i < k + 1 ensures r[i] == ([sel[k]] + acc)[i] {
        }
      }
      acc := [sel[k]] + acc;
      k := k + 1;
    }
    assert sel[..|sel|] == sel;
    ReverseReverse(sel);
    ps := Reverse(acc);
  }

  // ---------------------------------------------------------------------
  // Visualise and Visualise recursively.

  /** A visibility that is NULL or "visible" switches Visualise off. */
  predicate ShownAsVisible(r: Row) {
    r.visibility == None || r.visibility == Some(VISIBLE)
  }

  /** The flag of the invisible-descendant check AS WRITTEN: the callback
      overwrites the shared flag on every row it visits, so each selected
      row that is not shown as visible and has children replaces the
      verdict of the ones before it; only the last such row counts.  A
      verdict it gives is always right. */
  ghost function InvisibleDescendantAsWritten(f: seq<Node>, sel: seq<Path>, k: nat): (flag: bool)
    requires SourcesValid(f, sel) && k <= |sel|
    ensures flag ==> exists a :: 0 <= a < k && !ShownAsVisible(NodeAt(f, sel[a]).row) && UnlabelledBelow(f, sel[a])
  {
    if k == 0 then false
    else if !ShownAsVisible(NodeAt(f, sel[k - 1]).row) && NodeAt(f, sel[k - 1]).children != [] then
      UnlabelledBelow(f, sel[k - 1])
    else InvisibleDescendantAsWritten(f, sel, k - 1)
  }

  /** An invisible menu with one child, shown as visible or not. */
  function InvisibleMenu(name: string, child: Row): Node {
    Node(Row(Menu, Some(name), None, Some(name), None, None, Some(INVISIBLE_MENU)), [Node(child, [])])
  }

  function PlainItem(name: Option<string>): Row {
    Row(Item, name, None, None, None, None, None)
  }

  /** Two selected invisible menus, the first with an unlabelled item, the
      second with a labelled one: the code leaves Visualise recursively off,
      although the first menu has a descendant to visualise. */
  lemma {:induction false} LastSelectedRowDecides()
    ensures var f := [InvisibleMenu("a", PlainItem(None)), InvisibleMenu("b", PlainItem(Some("x")))];
      var sel := [[0], [1]];
      SourcesValid(f, sel) && !InvisibleDescendantAsWritten(f, sel, 2) &&
      UnlabelledBelow(f, [0]) && !ShownAsVisible(NodeAt(f, [0]).row)
  {
    var f := [InvisibleMenu("a", PlainItem(None)), InvisibleMenu("b", PlainItem(Some("x")))];
    assert ValidPath(f, [0, 0]) && IsAncestor([0], [0, 0]) && NodeAt(f, [0, 0]).row == PlainItem(None);
    forall d | IsAncestor([1], d) && ValidPath(f, d) ensures !IsUnlabelled(NodeAt(f, d).row) {
      assert d[0] == 1 && ValidPath(f[1].children, d[1..]);
      assert d[1] == 0 && !ValidPath(f[1].children[0].children, d[2..]);
      assert d == [1, 0];
    }
  }

  /** The loop of `row_selected` over the selected rows that decides Remove
      all children, Visualise and Visualise recursively, with the invisible
      descendant flag kept once it is set (the intended reading). */
  method VisibilityChecks(f: seq<Node>, sel: seq<Path>) returns (noChildren: bool, visualise: bool, invisibleDescendant: bool)
    requires SourcesValid(f, sel)
    ensures noChildren <==> exists a :: 0 <= a < |sel| && NodeAt(f, sel[a]).children == []
    ensures visualise <==> forall a :: 0 <= a < |sel| ==> !ShownAsVisible(NodeAt(f, sel[a]).row)
    ensures invisibleDescendant <==>
      exists a :: 0 <= a < |sel| && !ShownAsVisible(NodeAt(f, sel[a]).row) && UnlabelledBelow(f, sel[a])
  {
    noChildren, visualise, invisibleDescendant := false, true, false;
    var k := 0;
    while k < |sel|
      invariant 0 <= k <= |sel|
      invariant noChildren <==> exists a :: 0 <= a < k && NodeAt(f, sel[a]).children == []
      invariant visualise <==> forall a :: 0 <= a < k ==> !ShownAsVisible(NodeAt(f, sel[a]).row)
      invariant invisibleDescendant <==>
        exists a :: 0 <= a < k && !ShownAsVisible(NodeAt(f, sel[a]).row) && UnlabelledBelow(f, sel[a])
    {
      var n := NodeAt(f, sel[k]);
      if n.children == [] {
        noChildren := true;
        NoChildNoUnlabelled(f, sel[k]);
      }
      if ShownAsVisible(n.row) {
        visualise := false;
      } else if n.children != [] && !invisibleDescendant {
        invisibleDescendant := ScanInvisibleDescendants(f, sel[k]);
      }
      k := k + 1;
    }
  }

  /** A row without children has no unlabelled descendant. */
  lemma NoChildNoUnlabelled(f: seq<Node>, p: Path)
    requires ValidPath(f, p) && NodeAt(f, p).children == []
    ensures !UnlabelledBelow(f, p)
  {
    forall d ensures !(IsAncestor(p, d) && ValidPath(f, d)) {
      DescendantPaths(f, p, d);
    }
  }

  // ---------------------------------------------------------------------
  // Moving a single selected row.

  const OPTION_TYPE_NAMES: seq<string> := ["option", "option block"]

  /** `not_option_and_no_autosort` for a row of type `typeName`. */
  predicate NotOptionAndNoAutosort(autosort: bool, typeName: Option<string>) {
    !(autosort && StrIn(typeName, OPTION_TYPE_NAMES))
  }

  /** The sensitivity of the move entries: `up` for Move to top and Move
      up, `down` for Move down and Move to bottom. */
  datatype MoveButtons = MoveButtons(up: bool, down: bool)

  /** The move entries AS WRITTEN: the option test reads the type from the
      text fields before they are loaded with the newly selected row, so it
      sees the type of the row selected before. */
  function MoveButtonsAsWritten(f: seq<Node>, p: Path, autosort: bool, previous: TxtFields): (m: MoveButtons)
    requires ValidPath(f, p)
    ensures m.up ==> p[|p| - 1] > 0
    ensures m.down ==> ValidParent(f, Parent(p)) && p[|p| - 1] + 1 < |Kids(f, Parent(p))|
    ensures autosort && StrIn(previous.typeName, OPTION_TYPE_NAMES) ==> m == MoveButtons(false, false)
  {
    KidsAt(f, p);
    MoveButtons(p[|p| - 1] > 0 && NotOptionAndNoAutosort(autosort, previous.typeName),
                p[|p| - 1] + 1 < |Kids(f, Parent(p))| && NotOptionAndNoAutosort(autosort, previous.typeName))
  }

  /** The move entries as intended: with autosort on, an option or option
      block cannot be moved; otherwise up needs a previous sibling and down
      a next one. */
  function MoveButtonsFor(f: seq<Node>, p: Path, autosort: bool): (m: MoveButtons)
    requires ValidPath(f, p)
    ensures autosort && IsOptionLike(NodeAt(f, p).row.rtype) ==> m == MoveButtons(false, false)
    ensures !(autosort && IsOptionLike(NodeAt(f, p).row.rtype)) ==>
      ValidParent(f, Parent(p)) &&
      (m.up <==> p[|p| - 1] > 0) && (m.down <==> p[|p| - 1] + 1 < |Kids(f, Parent(p))|)
  {
    KidsAt(f, p);
    var t := TypeName(NodeAt(f, p).row.rtype);
    assert StrIn(t, OPTION_TYPE_NAMES) <==> IsOptionLike(NodeAt(f, p).row.rtype);
    MoveButtons(p[|p| - 1] > 0 && NotOptionAndNoAutosort(autosort, t),
                p[|p| - 1] + 1 < |Kids(f, Parent(p))| && NotOptionAndNoAutosort(autosort, t))
  }

  /** With autosort on, after an item was selected, an option with a
      previous sibling is selected: the code offers to move it up, although
      moving options is meant to be impossible with autosort on. */
  lemma StaleTypeEnablesMove()
    ensures var opt := (e: string) => Node(Row(OptionRow, Some(e), Some(""), None, None, None, None), []);
      var item := PlainItem(Some("Terminal"));
      var f := [Node(item, [Node(Row(Action, Some(EXECUTE), None, None, None, None, None), [opt("command"), opt("prompt")])])];
      ValidPath(f, [0, 0, 1]) &&
      MoveButtonsAsWritten(f, [0, 0, 1], true, TxtFieldsOf(item)).up &&
      !MoveButtonsFor(f, [0, 0, 1], true).up
  {
  }

  // ---------------------------------------------------------------------
  // The Back and Forward buttons of the find grid.

  datatype FindButtons = FindButtons(back: bool, forward: bool)

  /** Back is sensitive when the selected row comes after the first
      occurrence, Forward when it comes before the last. */
  function FindButtonsFor(occ: seq<Path>, p: Path): (b: FindButtons)
    ensures b.back ==> exists j :: 0 <= j < |occ| && PathBefore(occ[j], p)
    ensures b.forward ==> exists j :: 0 <= j < |occ| && PathBefore(p, occ[j])
  {
    if occ == [] then FindButtons(false, false)
    else FindButtons(PathBefore(occ[0], p), PathBefore(p, occ[|occ| - 1]))
  }

  /** In the list of occurrences, which is in tree order, Back is sensitive
      exactly when there is an occurrence before the selected row to jump
      back to, and Forward exactly when there is one after it. */
  lemma FindButtonsIff(occ: seq<Path>, p: Path)
    requires Increasing(occ)
    ensures FindButtonsFor(occ, p).back <==> exists j :: 0 <= j < |occ| && PathBefore(occ[j], p)
    ensures FindButtonsFor(occ, p).forward <==> exists j :: 0 <= j < |occ| && PathBefore(p, occ[j])
  {
    if exists j :: 0 <= j < |occ| && PathBefore(occ[j], p) {
      var j :| 0 <= j < |occ| && PathBefore(occ[j], p);
      if j > 0 {
        PathBeforeTransitive(occ[0], occ[j], p);
      }
    }
    if exists j :: 0 <= j < |occ| && PathBefore(p, occ[j]) {
      var j :| 0 <= j < |occ| && PathBefore(p, occ[j]);
      if j < |occ| - 1 {
        PathBeforeTransitive(p, occ[j], occ[|occ| - 1]);
      }
    }
  }

  // ---------------------------------------------------------------------
  // The entry fields below the tree view.

  /** `set_entry_fields` is called for a single selected row unless it is an
      action, an option block, the option "enabled" or an option of Exit or
      SessionLogout. */
  predicate EntryFieldsShown(r: Row, parentElement: Option<string>) {
    !(r.rtype == Action || r.rtype == OptionBlock ||
      (r.rtype == OptionRow && (Is(r.element, "enabled") || StrIn(parentElement, [EXIT, SESSION_LOGOUT]))))
  }

  /** The element of the parent row; NULL for a toplevel row. */
  function ParentElement(f: seq<Node>, p: Path): (e: Option<string>)
    requires ValidPath(f, p)
    ensures |p| > 1 ==> ValidPath(f, Parent(p)) && e == NodeAt(f, Parent(p)).row.element
    ensures |p| == 1 ==> e == None
  {
    if |p| > 1 then
      PrefixValid(f, p, |p| - 1);
      NodeAt(f, Parent(p)).row.element
    else None
  }

  // ---------------------------------------------------------------------
  // The state `row_selected` sets.

  /** The sensitivity (or visibility) of the menu and toolbar entries
      `row_selected` decides on, and the status bar text.  The widgets
      themselves are not part of this model; their state is a value, split
      into the entries decided for any selection and those that follow a
      single selected row. */
  datatype Controls = Controls(common: Common, single: SingleRow)

  datatype Common = Common(
    dragging: bool,
    statusMessage: string,
    /** The Edit menu and the Remove button. */
    edit: bool,
    remove: bool,
    /** The Search menu and the Find button. */
    search: bool,
    visualise: bool,
    visualiseRecursively: bool,
    removeAllChildren: bool,
    save: bool)

  datatype SingleRow = SingleRow(
    /** Move to top and Move up, Move down and Move to bottom in the Edit
        menu. */
    moveTop: bool,
    moveUp: bool,
    moveDown: bool,
    moveBottom: bool,
    /** The Move up and Move down toolbar buttons. */
    tbMoveUp: bool,
    tbMoveDown: bool,
    findBack: bool,
    findForward: bool,
    entryGridShown: bool)

  /** What `row_selected` decides for the selected rows `sel` of `tree`,
      with Save allowed by `save`, the option sorting switch `autosort`, the
      list of occurrences `occ` and the controls `before`.  Dragging is
      blocked exactly for the blocking reasons; Edit and Remove need a
      selection; Remove all children needs children on every selected row;
      Visualise needs every selected row to be invisible, and Visualise
      recursively also an unlabelled descendant; the move entries are off
      for several rows, untouched for none, and follow the siblings of a
      single row. */
  ghost predicate ControlsFor(tree: seq<Node>, sel: seq<Path>, save: bool, autosort: bool, occ: seq<Path>,
                              before: Controls, c: Controls)
    requires SourcesValid(tree, sel)
  {
    DragDecided(tree, sel, c.common.dragging, c.common.statusMessage) &&
    EditDecided(tree, sel, save, c.common) &&
    SingleDecided(tree, sel, autosort, occ, before.single, c.single)
  }

  ghost predicate DragDecided(tree: seq<Node>, sel: seq<Path>, dragging: bool, message: string)
    requires SourcesValid(tree, sel)
  {
    var r := BlockingReasons(tree, sel);
    dragging == !Blocked(r) && message == (if Blocked(r) then BlockMessage(r) else "")
  }

  ghost predicate EditDecided(tree: seq<Node>, sel: seq<Path>, save: bool, c: Common)
    requires SourcesValid(tree, sel)
  {
    c.edit == c.remove == (sel != []) &&
    c.search == (tree != []) &&
    c.save == save &&
    (c.removeAllChildren <==> forall a :: 0 <= a < |sel| ==> NodeAt(tree, sel[a]).children != []) &&
    (c.visualise <==> forall a :: 0 <= a < |sel| ==> !ShownAsVisible(NodeAt(tree, sel[a]).row)) &&
    (c.visualiseRecursively <==> c.visualise && exists a :: 0 <= a < |sel| && UnlabelledBelow(tree, sel[a]))
  }

  ghost predicate SingleDecided(tree: seq<Node>, sel: seq<Path>, autosort: bool, occ: seq<Path>, before: SingleRow, c: SingleRow)
    requires SourcesValid(tree, sel)
  {
    (|sel| != 1 ==> !c.tbMoveUp && !c.tbMoveDown && !c.findBack && !c.findForward && !c.entryGridShown) &&
    (|sel| == 0 ==>
      c.moveTop == before.moveTop && c.moveUp == before.moveUp && c.moveDown == before.moveDown && c.moveBottom == before.moveBottom) &&
    (|sel| > 1 ==> !c.moveTop && !c.moveUp && !c.moveDown && !c.moveBottom) &&
    (|sel| == 1 ==> var p := sel[0]; var m := MoveButtonsFor(tree, p, autosort);
      c.moveTop == c.moveUp == c.tbMoveUp == m.up && c.moveDown == c.moveBottom == c.tbMoveDown == m.down &&
      FindButtons(c.findBack, c.findForward) == FindButtonsFor(occ, p) &&
      c.entryGridShown == EntryFieldsShown(NodeAt(tree, p).row, ParentElement(tree, p)))
  }

  /** Whether the selection may be dragged, and the status bar text. */
  method DecideDrag(tree: seq<Node>, sel: seq<Path>) returns (dragging: bool, message: string)
    requires SourcesValid(tree, sel)
    ensures DragDecided(tree, sel, dragging, message)
  {
    if |sel| <= 1 {
      SingleSelectionNeverBlocked(tree, sel);
      dragging, message := true, "";
    } else {
      var r := CheckDragging(tree, sel);
      dragging := !Blocked(r);
      message := if dragging then "" else BlockMessage(r);
    }
  }

  /** The decisions of `row_selected` that do not depend on the number of
      selected rows. */
  method DecideCommon(tree: seq<Node>, sel: seq<Path>, save: bool) returns (c: Common)
    requires SourcesValid(tree, sel)
    ensures DragDecided(tree, sel, c.dragging, c.statusMessage) && EditDecided(tree, sel, save, c)
  {
    var dragging, message := DecideDrag(tree, sel);
    var noChildren, visualise, invisibleDescendant := VisibilityChecks(tree, sel);
    InvisibleDescendantOfVisualised(tree, sel, visualise, invisibleDescendant);
    var some := sel != [];
    c := Common(dragging, message, some, some, tree != [], visualise, visualise && invisibleDescendant,
                !noChildren, save);
  }

  /** The decisions of `row_selected` that follow a single selected row;
      with no selection the move entries are left as they were. */
  method DecideSingle(tree: seq<Node>, sel: seq<Path>, autosort: bool, occ: seq<Path>, before: SingleRow)
    returns (c: SingleRow)
    requires SourcesValid(tree, sel)
    ensures SingleDecided(tree, sel, autosort, occ, before, c)
  {
    if |sel| == 0 {
      c := before.(tbMoveUp := false, tbMoveDown := false, findBack := false, findForward := false,
                   entryGridShown := false);
    } else if |sel| > 1 {
      c := SingleRow(false, false, false, false, false, false, false, false, false);
    } else {
      var p := sel[0];
      var m := MoveButtonsFor(tree, p, autosort);
      var b := FindButtonsFor(occ, p);
      c := SingleRow(m.up, m.up, m.down, m.down, m.up, m.down, b.back, b.forward,
                     EntryFieldsShown(NodeAt(tree, p).row, ParentElement(tree, p)));
    }
  }

  /** The decisions of `row_selected` on the controls. */
  method DecideControls(tree: seq<Node>, sel: seq<Path>, save: bool, autosort: bool, occ: seq<Path>,
                        before: Controls) returns (c: Controls)
    requires SourcesValid(tree, sel)
    ensures ControlsFor(tree, sel, save, autosort, occ, before, c)
  {
    var common := DecideCommon(tree, sel, save);
    var single := DecideSingle(tree, sel, autosort, occ, before.single);
    c := Controls(common, single);
  }

  /** When every selected row is invisible, the intended flag is the
      existence of a selected row with an unlabelled descendant. */
  lemma InvisibleDescendantOfVisualised(tree: seq<Node>, sel: seq<Path>, visualise: bool, flag: bool)
    requires SourcesValid(tree, sel)
    requires visualise <==> forall a :: 0 <= a < |sel| ==> !ShownAsVisible(NodeAt(tree, sel[a]).row)
    requires flag <==> exists a :: 0 <= a < |sel| && !ShownAsVisible(NodeAt(tree, sel[a]).row) && UnlabelledBelow(tree, sel[a])
    ensures visualise && flag <==> visualise && exists a :: 0 <= a < |sel| && UnlabelledBelow(tree, sel[a])
  {
  }

  /** `row_selected` for the selected rows `sel` (in tree order), with the
      invisible-descendant check and the option test of the move entries as
      intended; `before` is the state of the controls before the call.  An
      allowed drag takes the selected rows as its sources, which then meet
      what drag and drop needs of them; the text fields are loaded with a
      single selected row and cleared otherwise. */
  method RowSelected(e: Editor, sel: seq<Path>, before: Controls) returns (c: Controls)
    requires e.Valid() && SourcesValid(e.tree, sel) && Increasing(sel)
    modifies e
    ensures e.Valid()
    ensures e.filename == old(e.filename) && e.menuIds == old(e.menuIds) && e.tree == old(e.tree)
    ensures e.changeDone == old(e.changeDone) && e.autosort == old(e.autosort)
    ensures e.findShown == old(e.findShown) && e.findTerm == old(e.findTerm)
    ensures e.findSettings == old(e.findSettings) && e.occurrences == old(e.occurrences)
    ensures ControlsFor(old(e.tree), sel, old(e.changeDone && e.filename.Some?), old(e.autosort), old(e.occurrences), before, c)
    ensures c.common.dragging ==>
      e.sourcePaths == sel && SourcesValid(e.tree, e.sourcePaths) && Increasing(e.sourcePaths) && Disjoint(e.sourcePaths)
    ensures !c.common.dragging ==> e.sourcePaths == old(e.sourcePaths)
    ensures |sel| == 1 ==> e.txtFields == TxtFieldsOf(NodeAt(e.tree, sel[0]).row)
    ensures |sel| != 1 ==> e.txtFields == NO_TXT_FIELDS
  {
    var tree, save, autosort, occ := e.tree, e.changeDone && e.filename.Some?, e.autosort, e.occurrences;
    c := DecideControls(tree, sel, save, autosort, occ, before);
    if c.common.dragging {
      AllowedSelectionDisjoint(tree, sel);
    }
    var t := if |sel| == 1 then TxtFieldsOf(NodeAt(tree, sel[0]).row) else NO_TXT_FIELDS;
    ApplySelection(e, sel, c.common.dragging, t);
  }

  /** Stores the sources of an allowed drag and the text fields. */
  method ApplySelection(e: Editor, sel: seq<Path>, dragging: bool, t: TxtFields)
    requires e.Valid()
    modifies e
    ensures e.Valid()
    ensures e.filename == old(e.filename) && e.menuIds == old(e.menuIds) && e.tree == old(e.tree)
    ensures e.changeDone == old(e.changeDone) && e.autosort == old(e.autosort)
    ensures e.findShown == old(e.findShown) && e.findTerm == old(e.findTerm)
    ensures e.findSettings == old(e.findSettings) && e.occurrences == old(e.occurrences)
    ensures e.sourcePaths == if dragging then sel else old(e.sourcePaths)
    ensures e.txtFields == t
  {
    if dragging {
      var ps := CreateSourcePaths(sel);
      e.SetSourcePaths(ps);
    }
    e.SetTxtFields(t);
  }
}
