/*
 * The action/option form of the editor: the options the combo box still
 * offers for an Execute action or a startupnotify block, the check of the
 * mandatory fields, and the insertion of the chosen action or option with
 * the values entered in the form (`action_option_insert`).
 */
module ActionOptions {
  import opened Rows
  import opened Tree
  import opened Kickshaw
  import opened Editing
  import opened AddingAndDeleting

  // The texts the combo box shows; they are also the IDs of its items.
  const EXECUTE_DISPLAYED: seq<string> := ["Prompt", "Command", "Startupnotify"]
  const STARTUPNOTIFY_DISPLAYED: seq<string> := ["Enabled", "Name", "WM_CLASS", "Icon"]
  const ENABLED: nat := 0
  const NAME: nat := 1

  // ---------------------------------------------------------------------
  // generate_action_option_combo_box_content_for_Execute_and_startupnotify_opts

  /** The displayed texts of the options of `opts`, from the `i`th on, that
      none of `children` has, in the order of `opts`. */
  function MissingFrom(children: seq<Node>, opts: seq<string>, displayed: seq<string>, i: nat): seq<string>
    requires |opts| == |displayed| && i <= |opts|
    decreases |opts| - i
  {
    if i == |opts| then []
    else (if HasChild(children, opts[i]) then [] else [displayed[i]]) + MissingFrom(children, opts, displayed, i + 1)
  }

  /** The options still missing among `children`. */
  function Missing(children: seq<Node>, opts: seq<string>, displayed: seq<string>): seq<string>
    requires |opts| == |displayed|
  {
    MissingFrom(children, opts, displayed, 0)
  }

  /** A text is offered exactly when it is the displayed text of an option
      that no child has. */
  lemma {:induction false} MissingFromIff(children: seq<Node>, opts: seq<string>, displayed: seq<string>, i: nat, x: string)
    requires |opts| == |displayed| && i <= |opts|
    ensures x in MissingFrom(children, opts, displayed, i) <==>
      exists j :: i <= j < |opts| && x == displayed[j] && !HasChild(children, opts[j])
    decreases |opts| - i
  {
    if i < |opts| {
      var head := if HasChild(children, opts[i]) then [] else [displayed[i]];
      var rest := MissingFrom(children, opts, displayed, i + 1);
      assert MissingFrom(children, opts, displayed, i) == head + rest;
      MissingFromIff(children, opts, displayed, i + 1, x);
      if exists j :: i <= j < |opts| && x == displayed[j] && !HasChild(children, opts[j]) {
        var j :| i <= j < |opts| && x == displayed[j] && !HasChild(children, opts[j]);
        if j == i {
          assert x in head;
        }
      }
    }
  }

  /** Where the options are looked for: the selected row itself when it is
      the Execute action (or the startupnotify block), otherwise its parent. */
  function OptionsParent(f: seq<Node>, s: Path, execute: bool): (q: Path)
    requires ValidPath(f, s)
    requires NodeAt(f, s).row.element != Some(if execute then EXECUTE else "startupnotify") ==> |s| > 1
    ensures ValidParent(f, q)
  {
    if NodeAt(f, s).row.element == Some(if execute then EXECUTE else "startupnotify") then s
    else
      PrefixValid(f, s, |s| - 1);
      Parent(s)
  }

  /** The options and the displayed texts of Execute or of startupnotify. */
  function OptionsAndTexts(execute: bool): (r: (seq<string>, seq<string>))
    ensures |r.0| == |r.1|
  {
    if execute then (EXECUTE_OPTIONS, EXECUTE_DISPLAYED) else (STARTUPNOTIFY_OPTIONS, STARTUPNOTIFY_DISPLAYED)
  }

  /** The combo box items for the options of Execute (`execute`) or of
      startupnotify: the existing options are looked up among the children
      of `OptionsParent`, and every option not found is appended. */
  method GenerateComboContentForExecuteAndStartupnotifyOpts(f: seq<Node>, s: Path, execute: bool)
    returns (items: seq<string>)
    requires ValidPath(f, s)
    requires NodeAt(f, s).row.element != Some(if execute then EXECUTE else "startupnotify") ==> |s| > 1
    ensures items == Missing(Kids(f, OptionsParent(f, s, execute)), OptionsAndTexts(execute).0, OptionsAndTexts(execute).1)
  {
    var parent := OptionsParent(f, s, execute);
    var opts, displayed := OptionsAndTexts(execute).0, OptionsAndTexts(execute).1;
    var children := Kids(f, parent);
    var optsExist := new bool[|opts|](_ => false);
    CheckForExistingOptions(children, opts, optsExist);
    items := AppendMissing(children, opts, displayed, optsExist[..]);
  }

  /** The loop of the combo generator: the displayed text of every option
      whose flag is not raised is appended. */
  method AppendMissing(children: seq<Node>, opts: seq<string>, displayed: seq<string>, exist: seq<bool>)
    returns (items: seq<string>)
    requires |opts| == |displayed| == |exist|
    requires forall i :: 0 <= i < |opts| ==> (exist[i] <==> HasChild(children, opts[i]))
    ensures items == Missing(children, opts, displayed)
  {
    items := [];
    var i := 0;
    while i < |opts|
      invariant 0 <= i <= |opts|
      invariant items + MissingFrom(children, opts, displayed, i) == Missing(children, opts, displayed)
    {
      ghost var rest := MissingFrom(children, opts, displayed, i + 1);
      if !exist[i] {
        assert MissingFrom(children, opts, displayed, i) == [displayed[i]] + rest;
        assert items + ([displayed[i]] + rest) == (items + [displayed[i]]) + rest;
        items := items + [displayed[i]];
      } else {
        assert MissingFrom(children, opts, displayed, i) == rest;
      }
      i := i + 1;
    }
  }

  // ---------------------------------------------------------------------
  // The form.

  /** The fields of the form: the command and prompt entries, the check
      button (startupnotify for Execute, the prompt for Exit and
      SessionLogout), the "enabled" check button and the name, WM_CLASS and
      icon entries of the startupnotify options. */
  datatype Form = Form(command: string, prompt: string, checked: bool, enabledChecked: bool,
                       name: string, wmclass: string, icon: string)

  /** The entry of startupnotify option `i` (name, WM_CLASS or icon). */
  function Entry(form: Form, i: nat): string
    requires NAME <= i < 4
  {
    if i == 1 then form.name else if i == 2 then form.wmclass else form.icon
  }

  /** `show_action_options` empties every entry and shows only the ones the
      choice needs, so only those can hold text. */
  predicate FormShown(form: Form, choice: string, e: Option<string>) {
    (form.command != "" ==> choice in [EXECUTE, RESTART, "Command"]) &&
    (form.prompt != "" ==> choice == EXECUTE || (choice == "Prompt" && !StrIn(e, [EXIT, SESSION_LOGOUT]))) &&
    (form.name != "" ==> choice in [EXECUTE, "Startupnotify", "Name"]) &&
    (form.wmclass != "" ==> choice in [EXECUTE, "Startupnotify", "WM_CLASS"]) &&
    (form.icon != "" ==> choice in [EXECUTE, "Startupnotify", "Icon"])
  }

  /** A mandatory field is empty: the command for Execute or Command, the
      prompt for a prompt of Execute, the entry of a chosen name, WM_CLASS or
      icon option.  `e` is the element of the selected row. */
  predicate FieldMissing(choice: string, e: Option<string>, form: Form) {
    (choice in [EXECUTE, "Command"] && form.command == "") ||
    (choice == "Prompt" && !StrIn(e, [EXIT, SESSION_LOGOUT]) && form.prompt == "") ||
    (exists i :: NAME <= i < 4 && choice == STARTUPNOTIFY_DISPLAYED[i] && Entry(form, i) == "")
  }

  /** The check at the start of `action_option_insert`; on a missing field
      the entry is highlighted and nothing is inserted. */
  method CheckMandatoryFields(choice: string, e: Option<string>, form: Form) returns (missing: bool)
    ensures missing <==> FieldMissing(choice, e, form)
  {
    if choice in [EXECUTE, "Command"] && form.command == "" {
      return true;
    } else if choice == "Prompt" && !StrIn(e, [EXIT, SESSION_LOGOUT]) && form.prompt == "" {
      return true;
    }
    var i := NAME;
    while i < 4
      invariant NAME <= i <= 4
      invariant forall j :: NAME <= j < i ==> !(choice == STARTUPNOTIFY_DISPLAYED[j] && Entry(form, j) == "")
    {
      if choice == STARTUPNOTIFY_DISPLAYED[i] && Entry(form, i) == "" {
        return true;
      }
      i := i + 1;
    }
    return false;
  }

  /** Actions other than Execute, the startupnotify block and its "enabled"
      option have no mandatory field: they are never refused. */
  lemma NoMandatoryField(choice: string, e: Option<string>, form: Form)
    requires choice in [EXIT, RECONFIGURE, RESTART, SESSION_LOGOUT, "Startupnotify", "Enabled"]
    ensures !FieldMissing(choice, e, form)
  {
  }

  // ---------------------------------------------------------------------
  // Where the new row goes.

  /** `gtk_tree_store_insert_with_values` with position `pos` among `count`
      children: a position that is negative or past the end appends. */
  function InsertIndex(count: nat, pos: int): (i: nat)
    ensures i <= count
    ensures pos < 0 || pos > count ==> i == count
    ensures 0 <= pos <= count ==> i == pos
  {
    if pos < 0 || pos > count then count else pos
  }

  /** The insertion position is only computed when the new row goes next to
      the selected one: not for an item, nor for an option of an action, nor
      for a startupnotify option of the selected block. */
  predicate NextToSelection(t: RowType, choice: string) {
    !(t == Item || (t == Action && choice in EXECUTE_DISPLAYED) ||
      (t == OptionBlock && choice !in ["Prompt", "Command"]))
  }

  /** `insertion_position`: right after the selected row when that row has a
      next sibling, -1 (append) otherwise. */
  function InsertionPosition(f: seq<Node>, s: Path, choice: string): int
    requires ValidPath(f, s)
  {
    if !NextToSelection(NodeAt(f, s).row.rtype, choice) then -1
    else
      KidsAt(f, s);
      var n := |Kids(f, Parent(s))|;
      var last := s[|s| - 1];
      if n > 1 && last < n - 1 then last + 1 else -1
  }

  /** Whether the position is computed or not, the new row lands right
      after the selected row. */
  lemma InsertionRightAfter(f: seq<Node>, s: Path, choice: string)
    requires ValidPath(f, s) && NextToSelection(NodeAt(f, s).row.rtype, choice)
    ensures ValidParent(f, Parent(s))
    ensures InsertIndex(|Kids(f, Parent(s))|, InsertionPosition(f, s, choice)) == s[|s| - 1] + 1
  {
    KidsAt(f, s);
  }

  /** The children `kids` with the rows `ns` inserted one after the other,
      each at position `pos` of the children at that moment. */
  function InsertEach(kids: seq<Node>, ns: seq<Node>, pos: int): (r: seq<Node>)
    ensures |r| == |kids| + |ns|
    decreases |ns|
  {
    if ns == [] then kids
    else
      var i := InsertIndex(|kids|, pos);
      InsertEach(kids[..i] + [ns[0]] + kids[i..], ns[1..], pos)
  }

  /** Inserting at -1 appends: the rows end up after `kids`, in order. */
  lemma {:induction false} InsertEachAppends(kids: seq<Node>, ns: seq<Node>, pos: int)
    requires pos < 0
    ensures InsertEach(kids, ns, pos) == kids + ns
    decreases |ns|
  {
    if ns != [] {
      assert kids[..|kids|] + [ns[0]] + kids[|kids|..] == kids + [ns[0]];
      InsertEachAppends(kids + [ns[0]], ns[1..], pos);
      assert kids + [ns[0]] + ns[1..] == kids + ns;
    }
  }

  /** Whatever the position, the rows inserted are exactly `kids` and `ns`. */
  lemma {:induction false} InsertEachMultiset(kids: seq<Node>, ns: seq<Node>, pos: int)
    ensures multiset(InsertEach(kids, ns, pos)) == multiset(kids) + multiset(ns)
    decreases |ns|
  {
    if ns != [] {
      var i := InsertIndex(|kids|, pos);
      assert kids == kids[..i] + kids[i..];
      InsertEachMultiset(kids[..i] + [ns[0]] + kids[i..], ns[1..], pos);
      assert ns == [ns[0]] + ns[1..];
    }
  }

  /** One step of `InsertEach`. */
  lemma InsertEachStep(kids: seq<Node>, n: Node, ns: seq<Node>, pos: int)
    ensures var i := InsertIndex(|kids|, pos);
      InsertEach(kids, [n] + ns, pos) == InsertEach(kids[..i] + [n] + kids[i..], ns, pos)
  {
    assert ([n] + ns)[1..] == ns;
  }

  // ---------------------------------------------------------------------
  // The new rows.

  /** An option row. */
  function OptionNode(name: string, value: Option<string>): Node {
    Node(Row(OptionRow, Some(name), value, None, None, None, None), [])
  }

  /** An action row. */
  function ActionNode(name: string, options: seq<Node>): Node {
    Node(Row(Action, Some(name), None, None, None, None, None), options)
  }

  /** The startupnotify option block; it is inserted without a value. */
  function BlockNode(options: seq<Node>): Node {
    Node(Row(OptionBlock, Some("startupnotify"), None, None, None, None, None), options)
  }

  function YesNo(b: bool): string {
    if b then "yes" else "no"
  }

  /** The value of startupnotify option `i`: yes or no for "enabled", the
      entry for the others. */
  function SuboptionValue(form: Form, i: nat): string
    requires i < 4
  {
    if i == ENABLED then YesNo(form.enabledChecked) else Entry(form, i)
  }

  /** Startupnotify option `i` is inserted: "enabled" whenever the loop
      starts with it, the chosen option, and any option whose entry holds
      text. */
  predicate SuboptionUsed(form: Form, choice: string, i: nat)
    requires i < 4
  {
    i == ENABLED || choice == STARTUPNOTIFY_DISPLAYED[i] || Entry(form, i) != ""
  }

  function SuboptionNode(form: Form, i: nat): Node
    requires i < 4
  {
    OptionNode(STARTUPNOTIFY_OPTIONS[i], Some(SuboptionValue(form, i)))
  }

  /** The startupnotify options inserted by the loop that starts at `i`. */
  function SuboptionsFrom(form: Form, choice: string, i: nat): seq<Node>
    requires i <= 4
    decreases 4 - i
  {
    if i == 4 then []
    else (if SuboptionUsed(form, choice, i) then [SuboptionNode(form, i)] else []) + SuboptionsFrom(form, choice, i + 1)
  }

  /** Startupnotify option `i` ranks `i` in the canonical order. */
  lemma SuboptionRank(form: Form, i: nat)
    requires i < 4
    ensures R(SuboptionNode(form, i), STARTUPNOTIFY_OPTIONS) == i
  {
    var opts := STARTUPNOTIFY_OPTIONS;
    assert forall a, b :: 0 <= a < b < 4 ==> opts[a] != opts[b];
    var r := Rank(Some(opts[i]), opts);
    assert r <= i;
  }

  /** Every startupnotify option of the loop from `i` is the option of its
      rank, at least `i`, without children. */
  lemma {:induction false} SuboptionsFromRanks(form: Form, choice: string, i: nat)
    requires i <= 4
    ensures var subs := SuboptionsFrom(form, choice, i);
      forall k :: 0 <= k < |subs| ==>
        (i <= R(subs[k], STARTUPNOTIFY_OPTIONS) < 4 && subs[k] == SuboptionNode(form, R(subs[k], STARTUPNOTIFY_OPTIONS)))
    decreases 4 - i
  {
    if i < 4 {
      SuboptionsFromRanks(form, choice, i + 1);
      var rest := SuboptionsFrom(form, choice, i + 1);
      var subs := SuboptionsFrom(form, choice, i);
      SuboptionRank(form, i);
      if SuboptionUsed(form, choice, i) {
        assert subs == [SuboptionNode(form, i)] + rest;
        assert forall k :: 1 <= k < |subs| ==> subs[k] == rest[k - 1];
      } else {
        assert subs == rest;
      }
    }
  }

  /** The startupnotify options of the loop come in canonical order. */
  lemma {:induction false} SuboptionsFromSorted(form: Form, choice: string, i: nat)
    requires i <= 4
    ensures RankSorted(SuboptionsFrom(form, choice, i), STARTUPNOTIFY_OPTIONS)
    decreases 4 - i
  {
    if i < 4 {
      SuboptionsFromSorted(form, choice, i + 1);
      SuboptionsFromRanks(form, choice, i + 1);
      SuboptionRank(form, i);
      SuboptionsFromStep(form, choice, i);
      ConsRankSorted(SuboptionUsed(form, choice, i), SuboptionNode(form, i), SuboptionsFrom(form, choice, i + 1),
                     STARTUPNOTIFY_OPTIONS);
    }
  }

  /** One turn of the loop over the startupnotify options. */
  lemma SuboptionsFromStep(form: Form, choice: string, i: nat)
    requires i < 4
    ensures SuboptionsFrom(form, choice, i) ==
      (if SuboptionUsed(form, choice, i) then [SuboptionNode(form, i)] else []) + SuboptionsFrom(form, choice, i + 1)
  {
  }

  /** A child that ranks no higher than a sorted sequence may go in front. */
  lemma ConsRankSorted(used: bool, x: Node, rest: seq<Node>, opts: seq<string>)
    requires RankSorted(rest, opts) && forall k :: 0 <= k < |rest| ==> R(x, opts) <= R(rest[k], opts)
    ensures RankSorted((if used then [x] else []) + rest, opts)
  {
    var subs := (if used then [x] else []) + rest;
    if used {
      forall a, b | 0 <= a < b < |subs| ensures R(subs[a], opts) <= R(subs[b], opts) {
        assert subs[b] == rest[b - 1];
        if a > 0 {
          assert subs[a] == rest[a - 1];
        }
      }
    } else {
      assert subs == rest;
    }
  }

  /** The loop from `i` inserts startupnotify option `j` (from `i` on)
      exactly when it is used. */
  lemma {:induction false} SuboptionInLoop(form: Form, choice: string, i: nat, j: nat)
    requires i <= j < 4
    ensures SuboptionNode(form, j) in SuboptionsFrom(form, choice, i) <==> SuboptionUsed(form, choice, j)
    decreases 4 - i
  {
    var rest := SuboptionsFrom(form, choice, i + 1);
    assert SuboptionsFrom(form, choice, i) ==
      (if SuboptionUsed(form, choice, i) then [SuboptionNode(form, i)] else []) + rest;
    if i < j {
      SuboptionInLoop(form, choice, i + 1, j);
      assert SuboptionNode(form, i).row.element != SuboptionNode(form, j).row.element;
    } else {
      SuboptionsFromRanks(form, choice, i + 1);
      SuboptionRank(form, i);
    }
  }

  /** The same, stated by the option's name. */
  lemma SuboptionsFromIff(form: Form, choice: string, i: nat, j: nat)
    requires i <= j < 4
    ensures HasChild(SuboptionsFrom(form, choice, i), STARTUPNOTIFY_OPTIONS[j]) <==> SuboptionUsed(form, choice, j)
  {
    var subs := SuboptionsFrom(form, choice, i);
    SuboptionsFromRanks(form, choice, i);
    SuboptionInLoop(form, choice, i, j);
    if HasChild(subs, STARTUPNOTIFY_OPTIONS[j]) {
      var c :| 0 <= c < |subs| && subs[c].row.element == Some(STARTUPNOTIFY_OPTIONS[j]);
      assert R(subs[c], STARTUPNOTIFY_OPTIONS) == j;
    }
    if SuboptionUsed(form, choice, j) {
      var c :| 0 <= c < |subs| && subs[c] == SuboptionNode(form, j);
      assert subs[c].row.element == Some(STARTUPNOTIFY_OPTIONS[j]);
    }
  }

  /** The loop over the startupnotify options from `start`: each used option
      is inserted among `kids` at `pos`. */
  method InsertSuboptions(kids: seq<Node>, form: Form, choice: string, start: nat, pos: int) returns (cs: seq<Node>)
    requires start <= 4
    ensures cs == InsertEach(kids, SuboptionsFrom(form, choice, start), pos)
  {
    cs := kids;
    var i := start;
    while i < 4
      invariant start <= i <= 4
      invariant InsertEach(cs, SuboptionsFrom(form, choice, i), pos) == InsertEach(kids, SuboptionsFrom(form, choice, start), pos)
    {
      if SuboptionUsed(form, choice, i) {
        var k := InsertIndex(|cs|, pos);
        assert SuboptionsFrom(form, choice, i) == [SuboptionNode(form, i)] + SuboptionsFrom(form, choice, i + 1);
        cs := cs[..k] + [SuboptionNode(form, i)] + cs[k..];
      }
      i := i + 1;
    }
  }

  // ---------------------------------------------------------------------
  // The options of Execute.

  /** Execute option `i` as the insertion loop creates it: prompt and
      command with their entries, the startupnotify block without a value. */
  function ExecuteOptionNode(form: Form, i: nat): Node
    requires i < 3
  {
    if i == 0 then OptionNode("prompt", Some(form.prompt))
    else if i == 1 then OptionNode("command", Some(form.command))
    else BlockNode([])
  }

  /** The Execute options the loop from `i` inserts. */
  function UsedFrom(used: seq<bool>, form: Form, i: nat): seq<Node>
    requires |used| == 3 && i <= 3
    decreases 3 - i
  {
    if i == 3 then []
    else (if used[i] then [ExecuteOptionNode(form, i)] else []) + UsedFrom(used, form, i + 1)
  }

  /** Which Execute options are inserted: for a new Execute action the
      prompt when it was entered, the command, and startupnotify when its
      check button is set; otherwise the chosen option of Execute. */
  function ExecuteOptionsUsed(choice: string, e: Option<string>, executeDone: bool, form: Form): (used: seq<bool>)
    ensures |used| == 3
  {
    [(executeDone || (choice == "Prompt" && !StrIn(e, [EXIT, SESSION_LOGOUT]))) && form.prompt != "",
     executeDone || (choice == "Command" && e != Some(RESTART)),
     (executeDone && form.checked) || choice == "Startupnotify"]
  }

  /** The loop over the Execute options: each used one is inserted among
      `kids` at `pos`. */
  method InsertExecuteOptions(kids: seq<Node>, used: seq<bool>, form: Form, pos: int) returns (cs: seq<Node>)
    requires |used| == 3
    ensures cs == InsertEach(kids, UsedFrom(used, form, 0), pos)
  {
    cs := kids;
    var i := 0;
    while i < 3
      invariant 0 <= i <= 3
      invariant InsertEach(cs, UsedFrom(used, form, i), pos) == InsertEach(kids, UsedFrom(used, form, 0), pos)
    {
      if used[i] {
        var k := InsertIndex(|cs|, pos);
        assert UsedFrom(used, form, i) == [ExecuteOptionNode(form, i)] + UsedFrom(used, form, i + 1);
        cs := cs[..k] + [ExecuteOptionNode(form, i)] + cs[k..];
      }
      i := i + 1;
    }
  }

  /** A new Execute action: the prompt when one was entered, the command,
      and, when its check button is set, the startupnotify block holding
      "enabled" and every startupnotify option whose entry holds text. */
  function ExecuteAction(form: Form): Node {
    ActionNode(EXECUTE,
      (if form.prompt != "" then [OptionNode("prompt", Some(form.prompt))] else []) +
      [OptionNode("command", Some(form.command))] +
      (if form.checked then [BlockNode(SuboptionsFrom(form, EXECUTE, ENABLED))] else []))
  }

  /** The options of a new Execute action are in canonical order; it has a
      command, a prompt exactly when one was entered, a startupnotify block
      exactly when its check button is set, and that block holds "enabled"
      first and its options in canonical order. */
  lemma ExecuteActionShape(form: Form)
    ensures var cs := ExecuteAction(form).children;
      RankSorted(cs, EXECUTE_OPTIONS) &&
      HasChild(cs, "command") &&
      (HasChild(cs, "prompt") <==> form.prompt != "") &&
      (HasChild(cs, "startupnotify") <==> form.checked) &&
      (forall k :: 0 <= k < |cs| && cs[k].children != [] ==> cs[k] == BlockNode(SuboptionsFrom(form, EXECUTE, ENABLED)))
    ensures var subs := SuboptionsFrom(form, EXECUTE, ENABLED);
      subs != [] && subs[0] == SuboptionNode(form, ENABLED) && RankSorted(subs, STARTUPNOTIFY_OPTIONS)
  {
    ExecuteActionSorted(form);
    ExecuteActionChildren(form);
    SuboptionsFromSorted(form, EXECUTE, ENABLED);
  }

  /** The prompt, the command and the startupnotify block rank 0, 1 and 2. */
  lemma ExecuteOptionRanks(form: Form)
    ensures R(OptionNode("prompt", Some(form.prompt)), EXECUTE_OPTIONS) == 0
    ensures R(OptionNode("command", Some(form.command)), EXECUTE_OPTIONS) == 1
    ensures R(BlockNode(SuboptionsFrom(form, EXECUTE, ENABLED)), EXECUTE_OPTIONS) == 2
  {
    var opts := EXECUTE_OPTIONS;
    assert opts[0] != opts[1] && opts[0] != opts[2] && opts[1] != opts[2];
  }

  lemma ExecuteActionSorted(form: Form)
    ensures RankSorted(ExecuteAction(form).children, EXECUTE_OPTIONS)
  {
    ExecuteOptionRanks(form);
  }

  lemma ExecuteActionChildren(form: Form)
    ensures var cs := ExecuteAction(form).children;
      HasChild(cs, "command") &&
      (HasChild(cs, "prompt") <==> form.prompt != "") &&
      (HasChild(cs, "startupnotify") <==> form.checked) &&
      (forall k :: 0 <= k < |cs| && cs[k].children != [] ==> cs[k] == BlockNode(SuboptionsFrom(form, EXECUTE, ENABLED)))
  {
    var cs := ExecuteAction(form).children;
    var p, c, b := OptionNode("prompt", Some(form.prompt)), OptionNode("command", Some(form.command)),
                   BlockNode(SuboptionsFrom(form, EXECUTE, ENABLED));
    var head: seq<Node> := if form.prompt != "" then [p] else [];
    var tail: seq<Node> := if form.checked then [b] else [];
    assert cs == head + [c] + tail;
    assert cs[|head|] == c;
    if form.prompt != "" {
      assert cs[0] == p;
    }
    if form.checked {
      assert cs[|cs| - 1] == b;
    }
    forall k | 0 <= k < |cs|
      ensures (k < |head| && cs[k] == p && form.prompt != "") || cs[k] == c || (cs[k] == b && form.checked)
    {
      if k < |head| {
        assert cs[k] == head[k];
      } else if k > |head| {
        assert cs[k] == tail[k - |head| - 1];
      }
    }
  }

  /** `action_option_insert` as written for a new Execute action: the
      startupnotify options are appended to the last Execute option
      inserted, also when that is the command because the startupnotify
      check button is not set. */
  function ExecuteActionAsWritten(form: Form): Node {
    var opts := UsedFrom(ExecuteOptionsUsed(EXECUTE, None, true, form), form, 0);
    var subs := SuboptionsFrom(form, EXECUTE, if form.checked then ENABLED else NAME);
    var last := if opts == [] then BlockNode([]) else opts[|opts| - 1];
    ActionNode(EXECUTE, (if opts == [] then [] else opts[..|opts| - 1]) + [Node(last.row, last.children + subs)])
  }

  /** With the check button set, the code as written builds the intended
      Execute action. */
  lemma ExecuteActionAsWrittenWhenChecked(form: Form)
    requires form.checked
    ensures ExecuteActionAsWritten(form) == ExecuteAction(form)
  {
    UsedForExecute(None, form);
    var opts := UsedFrom(ExecuteOptionsUsed(EXECUTE, None, true, form), form, 0);
    var subs := SuboptionsFrom(form, EXECUTE, ENABLED);
    assert opts[|opts| - 1] == BlockNode([]);
    assert Node(BlockNode([]).row, [] + subs) == BlockNode(subs);
  }

  /** A name typed while the startupnotify check button was set stays in its
      entry when the button is cleared again; the code as written then puts
      a "name" option under the "command" option. */
  lemma ExecuteNameUnderCommand()
    ensures var form := Form("x", "", false, false, "n", "", "");
      FormShown(form, EXECUTE, None) && !FieldMissing(EXECUTE, None, form) &&
      ExecuteActionAsWritten(form).children == [Node(OptionNode("command", Some("x")).row, [OptionNode("name", Some("n"))])] &&
      ExecuteAction(form).children == [OptionNode("command", Some("x"))]
  {
    var form := Form("x", "", false, false, "n", "", "");
    assert SuboptionsFrom(form, EXECUTE, 3) == [];
    assert SuboptionsFrom(form, EXECUTE, 2) == [];
    assert SuboptionsFrom(form, EXECUTE, NAME) == [OptionNode("name", Some("n"))];
    var used := ExecuteOptionsUsed(EXECUTE, None, true, form);
    assert used == [false, true, false];
    assert UsedFrom(used, form, 2) == [];
    var cmd := OptionNode("command", Some("x"));
    assert UsedFrom(used, form, 0) == [cmd];
    assert [cmd][..0] == [];
    assert cmd.children + [OptionNode("name", Some("n"))] == [OptionNode("name", Some("n"))];
  }

  // ---------------------------------------------------------------------
  // The startupnotify block as an option of Execute.

  /** `action_option_insert` as written when "Startupnotify" is chosen: the
      options of the new block are inserted at the insertion position of
      the block itself, which is not reset to -1. */
  function StartupnotifyBlockAsWritten(form: Form, pos: int): Node {
    BlockNode(InsertEach([], SuboptionsFrom(form, "Startupnotify", ENABLED), pos))
  }

  /** The new startupnotify block with its options appended. */
  function StartupnotifyBlock(form: Form): Node {
    BlockNode(SuboptionsFrom(form, "Startupnotify", ENABLED))
  }

  /** The block's options start with "enabled" and are in canonical order;
      they are exactly "enabled" and the options whose entry holds text. */
  lemma StartupnotifyBlockShape(form: Form)
    ensures var cs := StartupnotifyBlock(form).children;
      cs != [] && cs[0] == SuboptionNode(form, ENABLED) && RankSorted(cs, STARTUPNOTIFY_OPTIONS) &&
      forall j :: NAME <= j < 4 ==> (HasChild(cs, STARTUPNOTIFY_OPTIONS[j]) <==> Entry(form, j) != "")
  {
    SuboptionsFromSorted(form, "Startupnotify", ENABLED);
    forall j | NAME <= j < 4
      ensures HasChild(StartupnotifyBlock(form).children, STARTUPNOTIFY_OPTIONS[j]) <==> Entry(form, j) != ""
    {
      SuboptionsFromIff(form, "Startupnotify", ENABLED, j);
    }
  }

  /** Where the block is appended (position -1) the code as written builds
      the intended block. */
  lemma StartupnotifyBlockAsWrittenWhenAppended(form: Form, pos: int)
    requires pos < 0
    ensures StartupnotifyBlockAsWritten(form, pos) == StartupnotifyBlock(form)
  {
    InsertEachAppends([], SuboptionsFrom(form, "Startupnotify", ENABLED), pos);
  }

  /** With the prompt selected among the two options of an Execute action,
      the block goes to position 1 and so do its options after the first
      two: a name and a WM_CLASS end up in the wrong order. */
  lemma StartupnotifyOptionsOutOfOrder()
    ensures var form := Form("", "", false, true, "n", "w", "");
      FormShown(form, "Startupnotify", Some("prompt")) &&
      StartupnotifyBlockAsWritten(form, 1).children ==
        [OptionNode("enabled", Some("yes")), OptionNode("wmclass", Some("w")), OptionNode("name", Some("n"))] &&
      !RankSorted(StartupnotifyBlockAsWritten(form, 1).children, STARTUPNOTIFY_OPTIONS)
  {
    var form := Form("", "", false, true, "n", "w", "");
    BlockAsWrittenAtOne(form);
    var cs := StartupnotifyBlockAsWritten(form, 1).children;
    SuboptionRank(form, NAME);
    SuboptionRank(form, 2);
    assert cs[1] == SuboptionNode(form, 2) && cs[2] == SuboptionNode(form, NAME);
  }

  /** The options of the block as written when it goes to position 1. */
  lemma BlockAsWrittenAtOne(form: Form)
    requires form == Form("", "", false, true, "n", "w", "")
    ensures StartupnotifyBlockAsWritten(form, 1).children ==
      [OptionNode("enabled", Some("yes")), OptionNode("wmclass", Some("w")), OptionNode("name", Some("n"))]
  {
    var en, na, wm := OptionNode("enabled", Some("yes")), OptionNode("name", Some("n")), OptionNode("wmclass", Some("w"));
    assert SuboptionsFrom(form, "Startupnotify", 3) == [];
    assert SuboptionsFrom(form, "Startupnotify", 2) == [wm];
    assert SuboptionsFrom(form, "Startupnotify", 1) == [na, wm];
    assert SuboptionsFrom(form, "Startupnotify", ENABLED) == [en, na, wm];
    InsertEachStep([], en, [na, wm], 1);
    assert [][..0] + [en] + [][0..] == [en];
    InsertEachStep([en], na, [wm], 1);
    assert [en][..1] + [na] + [en][1..] == [en, na];
    InsertEachStep([en, na], wm, [], 1);
    assert [en, na][..1] + [wm] + [en, na][1..] == [en, wm, na];
    assert InsertEach([en, wm, na], [], 1) == [en, wm, na];
  }

  // ---------------------------------------------------------------------
  // action_option_insert

  /** What the choice inserts: a new action, the option of an Exit,
      SessionLogout or Restart action, an option of Execute, or an option of
      startupnotify. */
  datatype Kind = NewAction | OptionOfAction | ExecuteOption | StartupnotifyOption

  function KindOf(e: Option<string>, choice: string): Kind {
    if choice in ACTIONS then NewAction
    else if (choice == "Prompt" && StrIn(e, [EXIT, SESSION_LOGOUT])) || (choice == "Command" && e == Some(RESTART)) then OptionOfAction
    else if choice in EXECUTE_DISPLAYED then ExecuteOption
    else StartupnotifyOption
  }

  /** The startupnotify block a startupnotify option goes into: the selected
      block, or the block of the selected startupnotify option. */
  predicate InStartupnotify(f: seq<Node>, s: Path)
    requires ValidPath(f, s)
  {
    var r := NodeAt(f, s).row;
    IsOptionLike(r.rtype) && StrIn(r.element, ["startupnotify"] + STARTUPNOTIFY_OPTIONS) &&
    (r.element == Some("startupnotify") <==> r.rtype == OptionBlock) &&
    (r.rtype == OptionRow ==> |s| > 1)
  }

  /** A prompt, command or startupnotify row under an Execute action. */
  predicate InExecute(f: seq<Node>, s: Path)
    requires ValidPath(f, s)
  {
    var r := NodeAt(f, s).row;
    IsOptionLike(r.rtype) && StrIn(r.element, EXECUTE_OPTIONS) && |s| > 1 &&
    (r.rtype == OptionBlock <==> r.element == Some("startupnotify")) &&
    (PrefixValid(f, s, |s| - 1); NodeAt(f, Parent(s)).row.element == Some(EXECUTE))
  }

  /** The choices the combo box offers for the selected row: the actions
      for an item or action; the missing options of Execute for an Execute
      action or an option of it; the missing options of startupnotify for
      the block or an option of it; the prompt (command) for an Exit or
      SessionLogout (Restart) action without options. */
  predicate Offered(f: seq<Node>, s: Path, choice: string) {
    ValidPath(f, s) &&
    var r := NodeAt(f, s).row;
    ((r.rtype in {Item, Action} && choice in ACTIONS) ||
     (r.rtype == Action && r.element == Some(EXECUTE) &&
      choice in Missing(Kids(f, s), EXECUTE_OPTIONS, EXECUTE_DISPLAYED)) ||
     (InExecute(f, s) && (KidsAt(f, s); choice in Missing(Kids(f, Parent(s)), EXECUTE_OPTIONS, EXECUTE_DISPLAYED))) ||
     (InStartupnotify(f, s) &&
      choice in Missing(Kids(f, OptionsParent(f, s, false)), STARTUPNOTIFY_OPTIONS, STARTUPNOTIFY_DISPLAYED)) ||
     (r.rtype == Action && StrIn(r.element, [EXIT, RESTART, SESSION_LOGOUT]) && Kids(f, s) == [] &&
      choice == (if r.element == Some(RESTART) then "Command" else "Prompt")))
  }

  /** The new row goes inside the selected row (appended) rather than right
      after it. */
  predicate GoesInside(t: RowType, kind: Kind) {
    match kind
    case NewAction => t == Item
    case OptionOfAction => true
    case ExecuteOption => t == Action
    case StartupnotifyOption => t == OptionBlock
  }

  /** The parent of the new row and its index there: the last child of the
      selected row, or the next sibling of the selected row. */
  function Target(f: seq<Node>, s: Path, choice: string): (pl: (Path, nat))
    requires ValidPath(f, s)
    ensures ValidParent(f, pl.0) && pl.1 <= |Kids(f, pl.0)|
  {
    var r := NodeAt(f, s).row;
    if GoesInside(r.rtype, KindOf(r.element, choice)) then (s, |Kids(f, s)|)
    else
      KidsAt(f, s);
      (Parent(s), s[|s| - 1] + 1)
  }

  /** The action of a prompt or command option of an action other than
      Execute: the prompt takes yes or no from the check button, the command
      of Restart the entry. */
  function ActionOption(action: string, form: Form): Node {
    if action == RESTART then OptionNode("command", Some(form.command))
    else OptionNode("prompt", Some(YesNo(form.checked)))
  }

  /** The startupnotify option whose displayed text is `choice`. */
  function SuboptionIndex(choice: string): (j: nat)
    requires choice in STARTUPNOTIFY_DISPLAYED
    ensures j < 4 && STARTUPNOTIFY_DISPLAYED[j] == choice
  {
    if choice == "Enabled" then 0 else if choice == "Name" then 1 else if choice == "WM_CLASS" then 2 else 3
  }

  /** The row the choice inserts, with its options: a new Execute action
      (see `ExecuteAction`), another action with its prompt or command
      (Reconfigure has none), an option of an action, an option of
      Execute (the startupnotify block with its options, see
      `StartupnotifyBlock`), or an option of startupnotify. */
  function InsertedRow(e: Option<string>, choice: string, form: Form): Node
    requires Consistent(e, choice)
  {
    match KindOf(e, choice)
    case NewAction =>
      if choice == EXECUTE then ExecuteAction(form)
      else ActionNode(choice, if choice == RECONFIGURE then [] else [ActionOption(choice, form)])
    case OptionOfAction => ActionOption(e.value, form)
    case ExecuteOption =>
      if choice == "Prompt" then OptionNode("prompt", Some(form.prompt))
      else if choice == "Command" then OptionNode("command", Some(form.command))
      else StartupnotifyBlock(form)
    case StartupnotifyOption => SuboptionNode(form, SuboptionIndex(choice))
  }

  /** An option of an action has an action above it, and a startupnotify
      option is one of the four. */
  predicate Consistent(e: Option<string>, choice: string) {
    (KindOf(e, choice) == OptionOfAction ==> e.Some?) &&
    (KindOf(e, choice) == StartupnotifyOption ==> choice in STARTUPNOTIFY_DISPLAYED)
  }

  /** Every offered Execute text names an option of Execute that the
      children lack. */
  lemma MissingExecute(children: seq<Node>, x: string)
    requires x in Missing(children, EXECUTE_OPTIONS, EXECUTE_DISPLAYED)
    ensures x in EXECUTE_DISPLAYED && !HasChild(children, ExecuteOptionName(x))
  {
    MissingFromIff(children, EXECUTE_OPTIONS, EXECUTE_DISPLAYED, 0, x);
    var j :| 0 <= j < 3 && x == EXECUTE_DISPLAYED[j] && !HasChild(children, EXECUTE_OPTIONS[j]);
  }

  /** Every offered startupnotify text names an option of startupnotify
      that the children lack. */
  lemma MissingSuboption(children: seq<Node>, x: string)
    requires x in Missing(children, STARTUPNOTIFY_OPTIONS, STARTUPNOTIFY_DISPLAYED)
    ensures x in STARTUPNOTIFY_DISPLAYED && !HasChild(children, STARTUPNOTIFY_OPTIONS[SuboptionIndex(x)])
  {
    MissingFromIff(children, STARTUPNOTIFY_OPTIONS, STARTUPNOTIFY_DISPLAYED, 0, x);
    var j :| 0 <= j < 4 && x == STARTUPNOTIFY_DISPLAYED[j] && !HasChild(children, STARTUPNOTIFY_OPTIONS[j]);
  }

  /** The option of Execute whose displayed text is `choice`. */
  function ExecuteOptionName(choice: string): (name: string)
    requires choice in EXECUTE_DISPLAYED
    ensures name in EXECUTE_OPTIONS
  {
    if choice == "Prompt" then "prompt" else if choice == "Command" then "command" else "startupnotify"
  }

  /** An offered choice is consistent with the selected row. */
  lemma OfferedConsistent(f: seq<Node>, s: Path, choice: string)
    requires Offered(f, s, choice)
    ensures Consistent(NodeAt(f, s).row.element, choice)
  {
    if KindOf(NodeAt(f, s).row.element, choice) == StartupnotifyOption {
      OfferedStartupnotifyOption(f, s, choice);
    }
  }

  /** No action shares its displayed text with an option. */
  lemma ActionsAreNotOptions(x: string)
    requires x in ACTIONS
    ensures x !in EXECUTE_DISPLAYED && x !in STARTUPNOTIFY_DISPLAYED
  {
  }

  /** A new action is offered only for an item or an action. */
  lemma OfferedNewAction(f: seq<Node>, s: Path, choice: string)
    requires Offered(f, s, choice) && choice in ACTIONS
    ensures NodeAt(f, s).row.rtype in {Item, Action}
  {
    ActionsAreNotOptions(choice);
    var r := NodeAt(f, s).row;
    if r.rtype !in {Item, Action} {
      if InExecute(f, s) {
        KidsAt(f, s);
        var kids := Kids(f, Parent(s));
        if choice in Missing(kids, EXECUTE_OPTIONS, EXECUTE_DISPLAYED) {
          MissingExecute(kids, choice);
          assert false;
        }
      }
      if InStartupnotify(f, s) {
        var kids := Kids(f, OptionsParent(f, s, false));
        if choice in Missing(kids, STARTUPNOTIFY_OPTIONS, STARTUPNOTIFY_DISPLAYED) {
          MissingSuboption(kids, choice);
          assert false;
        }
      }
    }
  }

  /** An offered option of Execute goes under an Execute action that lacks
      it; a selected startupnotify block offers no prompt or command. */
  lemma OfferedExecuteOption(f: seq<Node>, s: Path, choice: string)
    requires Offered(f, s, choice)
    requires KindOf(NodeAt(f, s).row.element, choice) == ExecuteOption
    ensures NodeAt(f, s).row.rtype == Action || InExecute(f, s)
    ensures NodeAt(f, s).row.rtype == OptionBlock ==> choice in ["Prompt", "Command"]
    ensures !HasChild(Kids(f, Target(f, s, choice).0), ExecuteOptionName(choice))
  {
    ExecuteChoiceNotSuboption(f, s, choice);
    if NodeAt(f, s).row.rtype == Action {
      OfferedUnderExecuteAction(f, s, choice);
    } else {
      OfferedBesideExecuteOption(f, s, choice);
    }
  }

  /** An option of Execute is never among the missing options of a
      startupnotify block. */
  lemma ExecuteChoiceNotSuboption(f: seq<Node>, s: Path, choice: string)
    requires ValidPath(f, s)
    requires KindOf(NodeAt(f, s).row.element, choice) == ExecuteOption
    ensures !(InStartupnotify(f, s) && choice in Missing(Kids(f, OptionsParent(f, s, false)), STARTUPNOTIFY_OPTIONS, STARTUPNOTIFY_DISPLAYED))
  {
    if InStartupnotify(f, s) && choice in Missing(Kids(f, OptionsParent(f, s, false)), STARTUPNOTIFY_OPTIONS, STARTUPNOTIFY_DISPLAYED) {
      MissingSuboption(Kids(f, OptionsParent(f, s, false)), choice);
    }
  }

  /** The selected row is the Execute action: the option goes inside it. */
  lemma OfferedUnderExecuteAction(f: seq<Node>, s: Path, choice: string)
    requires Offered(f, s, choice) && NodeAt(f, s).row.rtype == Action
    requires KindOf(NodeAt(f, s).row.element, choice) == ExecuteOption
    ensures Target(f, s, choice).0 == s
    ensures !HasChild(Kids(f, s), ExecuteOptionName(choice))
  {
    assert NodeAt(f, s).row.element == Some(EXECUTE);
    MissingExecute(Kids(f, s), choice);
  }

  /** The selected row is an option of Execute: the option goes beside it. */
  lemma OfferedBesideExecuteOption(f: seq<Node>, s: Path, choice: string)
    requires Offered(f, s, choice) && NodeAt(f, s).row.rtype != Action
    requires !(InStartupnotify(f, s) && choice in Missing(Kids(f, OptionsParent(f, s, false)), STARTUPNOTIFY_OPTIONS, STARTUPNOTIFY_DISPLAYED))
    requires KindOf(NodeAt(f, s).row.element, choice) == ExecuteOption
    ensures InExecute(f, s)
    ensures NodeAt(f, s).row.rtype == OptionBlock ==> choice in ["Prompt", "Command"]
    ensures !HasChild(Kids(f, Target(f, s, choice).0), ExecuteOptionName(choice))
  {
    assert InExecute(f, s);
    KidsAt(f, s);
    var kids := Kids(f, Parent(s));
    MissingExecute(kids, choice);
    if NodeAt(f, s).row.rtype == OptionBlock {
      assert kids[s[|s| - 1]] == NodeAt(f, s);
    }
  }

  /** An offered option of startupnotify goes into a block that lacks it. */
  lemma OfferedStartupnotifyOption(f: seq<Node>, s: Path, choice: string)
    requires Offered(f, s, choice)
    requires KindOf(NodeAt(f, s).row.element, choice) == StartupnotifyOption
    ensures InStartupnotify(f, s) && Target(f, s, choice).0 == OptionsParent(f, s, false)
    ensures choice in STARTUPNOTIFY_DISPLAYED
    ensures !HasChild(Kids(f, Target(f, s, choice).0), STARTUPNOTIFY_OPTIONS[SuboptionIndex(choice)])
  {
    var r := NodeAt(f, s).row;
    if r.rtype == Action && r.element == Some(EXECUTE) && choice in Missing(Kids(f, s), EXECUTE_OPTIONS, EXECUTE_DISPLAYED) {
      MissingExecute(Kids(f, s), choice);
    }
    if InExecute(f, s) {
      KidsAt(f, s);
      if choice in Missing(Kids(f, Parent(s)), EXECUTE_OPTIONS, EXECUTE_DISPLAYED) {
        MissingExecute(Kids(f, Parent(s)), choice);
      }
    }
    assert InStartupnotify(f, s);
    MissingSuboption(Kids(f, OptionsParent(f, s, false)), choice);
  }

  /** `action_option_insert`, the part that builds the new row: the Execute
      options used are inserted by one loop, the startupnotify options by
      another.  The startupnotify options go into the startupnotify block
      only and are appended; `StartupnotifyBlockAsWritten` is the code as written. */
  method BuildInsertedRow(e: Option<string>, choice: string, form: Form) returns (node: Node)
    requires Consistent(e, choice) && FormShown(form, choice, e) && !FieldMissing(choice, e, form)
    ensures node == InsertedRow(e, choice, form)
  {
    var kind := KindOf(e, choice);
    if kind == NewAction && choice != EXECUTE {
      node := ActionNode(choice, if choice == RECONFIGURE then [] else [ActionOption(choice, form)]);
      return;
    } else if kind == OptionOfAction {
      node := ActionOption(e.value, form);
      return;
    }
    var executeDone := choice == EXECUTE;
    var opts, subs, start := InsertionLoops(e, choice, form);
    if executeDone {
      UsedForExecute(e, form);
      node := ActionNode(EXECUTE, if form.checked then opts[..|opts| - 1] + [BlockNode(subs)] else opts);
      assert node == ExecuteAction(form);
    } else if kind == ExecuteOption {
      UsedForOption(choice, e, form);
      node := if choice == "Startupnotify" then BlockNode(subs) else opts[0];
      BuiltExecuteOption(e, choice, form, node);
    } else {
      SuboptionsForOption(choice, form, start);
      node := subs[0];
      assert node == SuboptionNode(form, SuboptionIndex(choice));
    }
  }

  /** The two insertion loops of `action_option_insert`, run on a row
      without children: the Execute options used and the startupnotify
      options from `start` on, each appended. */
  method InsertionLoops(e: Option<string>, choice: string, form: Form) returns (opts: seq<Node>, subs: seq<Node>, start: nat)
    ensures start == if (choice == EXECUTE && form.checked) || choice in ["Startupnotify", "Enabled"] then ENABLED else NAME
    ensures opts == UsedFrom(ExecuteOptionsUsed(choice, e, choice == EXECUTE, form), form, 0)
    ensures subs == SuboptionsFrom(form, choice, start)
  {
    var used := ExecuteOptionsUsed(choice, e, choice == EXECUTE, form);
    opts := InsertExecuteOptions([], used, form, -1);
    start := if (choice == EXECUTE && form.checked) || choice in ["Startupnotify", "Enabled"] then ENABLED else NAME;
    subs := InsertSuboptions([], form, choice, start, -1);
    InsertEachAppends([], UsedFrom(used, form, 0), -1);
    InsertEachAppends([], SuboptionsFrom(form, choice, start), -1);
    assert [] + UsedFrom(used, form, 0) == UsedFrom(used, form, 0);
    assert [] + SuboptionsFrom(form, choice, start) == SuboptionsFrom(form, choice, start);
  }

  /** The row an option of Execute makes. */
  lemma BuiltExecuteOption(e: Option<string>, choice: string, form: Form, node: Node)
    requires KindOf(e, choice) == ExecuteOption && Consistent(e, choice)
    requires choice == "Startupnotify" ==> node == BlockNode(SuboptionsFrom(form, choice, ENABLED))
    requires choice != "Startupnotify" ==>
      node == ExecuteOptionNode(form, if choice == "Prompt" then 0 else 1)
    ensures node == InsertedRow(e, choice, form)
  {
  }

  /** The Execute options of a new Execute action. */
  lemma UsedForExecute(e: Option<string>, form: Form)
    ensures var opts := UsedFrom(ExecuteOptionsUsed(EXECUTE, e, true, form), form, 0);
      var head := (if form.prompt != "" then [OptionNode("prompt", Some(form.prompt))] else []) +
                  [OptionNode("command", Some(form.command))];
      opts == head + (if form.checked then [BlockNode([])] else []) &&
      (form.checked ==> opts[..|opts| - 1] == head)
  {
    var used := ExecuteOptionsUsed(EXECUTE, e, true, form);
    assert used == [form.prompt != "", true, form.checked];
    assert UsedFrom(used, form, 2) == if form.checked then [BlockNode([])] else [];
    assert UsedFrom(used, form, 1) == [OptionNode("command", Some(form.command))] + UsedFrom(used, form, 2);
  }

  /** The one Execute option inserted when an option of Execute is chosen. */
  lemma UsedForOption(choice: string, e: Option<string>, form: Form)
    requires KindOf(e, choice) == ExecuteOption && !FieldMissing(choice, e, form)
    ensures UsedFrom(ExecuteOptionsUsed(choice, e, false, form), form, 0) ==
      [ExecuteOptionNode(form, if choice == "Prompt" then 0 else if choice == "Command" then 1 else 2)]
  {
    var used := ExecuteOptionsUsed(choice, e, false, form);
    assert used == [choice == "Prompt", choice == "Command", choice == "Startupnotify"];
    assert UsedFrom(used, form, 3) == [];
  }

  /** The one startupnotify option inserted when an option of startupnotify
      is chosen: the other entries are hidden and empty. */
  lemma SuboptionsForOption(choice: string, form: Form, start: nat)
    requires choice in STARTUPNOTIFY_DISPLAYED && FormShown(form, choice, None)
    requires start == if choice == "Enabled" then ENABLED else NAME
    ensures SuboptionsFrom(form, choice, start) == [SuboptionNode(form, SuboptionIndex(choice))]
  {
    var j := SuboptionIndex(choice);
    assert SuboptionsFrom(form, choice, 4) == [];
    forall i | NAME <= i < 4 ensures SuboptionUsed(form, choice, i) <==> i == j {
      UsedOnlyChosen(choice, form, i);
    }
    SuboptionsFromStep(form, choice, 3);
    SuboptionsFromStep(form, choice, 2);
    SuboptionsFromStep(form, choice, NAME);
    if start == ENABLED {
      SuboptionsFromStep(form, choice, ENABLED);
    }
  }

  /** With an option of startupnotify chosen, only its own entry is shown, so
      only it (and "enabled", which the loop starts with) is used. */
  lemma UsedOnlyChosen(choice: string, form: Form, i: nat)
    requires choice in STARTUPNOTIFY_DISPLAYED && FormShown(form, choice, None) && NAME <= i < 4
    ensures SuboptionUsed(form, choice, i) <==> i == SuboptionIndex(choice)
  {
    var d := STARTUPNOTIFY_DISPLAYED;
    assert forall a, b :: 0 <= a < b < 4 ==> d[a] != d[b];
  }

  /** Where `action_option_insert` inserts the new row: the selected row
      (`iter`) or, for a new action next to an action, an option of Execute
      next to an option and a startupnotify option next to one, its parent;
      at the insertion position computed beforehand. */
  method Destination(f: seq<Node>, s: Path, choice: string) returns (q: Path, i: nat)
    requires Offered(f, s, choice)
    ensures (q, i) == Target(f, s, choice)
  {
    var r := NodeAt(f, s).row;
    var kind := KindOf(r.element, choice);
    var pos := InsertionPosition(f, s, choice);
    q := s;
    if (kind == NewAction && r.rtype == Action) ||
       (kind == ExecuteOption && r.rtype in {OptionRow, OptionBlock}) ||
       (kind == StartupnotifyOption && r.rtype == OptionRow) {
      KidsAt(f, s);
      q := Parent(s);
    }
    if kind == OptionOfAction {
      pos := -1;
    }
    if kind == ExecuteOption {
      OfferedExecuteOption(f, s, choice);
    } else if kind == StartupnotifyOption {
      OfferedStartupnotifyOption(f, s, choice);
    } else if kind == NewAction {
      OfferedNewAction(f, s, choice);
    }
    if !GoesInside(r.rtype, kind) {
      InsertionRightAfter(f, s, choice);
    }
    i := InsertIndex(|Kids(f, q)|, pos);
  }

  /** Rows without children and without menus. */
  predicate Leaves(ns: seq<Node>) {
    forall k :: 0 <= k < |ns| ==> ns[k].children == [] && !IsMenuOrPipe(ns[k].row.rtype)
  }

  lemma {:induction false} LeavesHaveNoIds(ns: seq<Node>)
    requires Leaves(ns)
    ensures TreeIds(ns) == multiset{}
    decreases |ns|
  {
    if ns != [] {
      assert TreeIds(ns[0].children) == multiset{};
      LeavesHaveNoIds(ns[1..]);
    }
  }

  lemma SuboptionsAreLeaves(form: Form, choice: string, i: nat)
    requires i <= 4
    ensures Leaves(SuboptionsFrom(form, choice, i))
  {
    SuboptionsFromRanks(form, choice, i);
  }

  /** The prompt and the command of a new Execute action are leaves. */
  lemma ExecuteHeadIds(form: Form)
    ensures TreeIds((if form.prompt != "" then [OptionNode("prompt", Some(form.prompt))] else []) +
                    [OptionNode("command", Some(form.command))]) == multiset{}
  {
    LeavesHaveNoIds((if form.prompt != "" then [OptionNode("prompt", Some(form.prompt))] else []) +
                    [OptionNode("command", Some(form.command))]);
  }

  /** A startupnotify block holds the IDs of its options, which are none. */
  lemma BlockIds(form: Form, choice: string)
    ensures TreeIds([BlockNode(SuboptionsFrom(form, choice, ENABLED))]) == multiset{}
  {
    var subs := SuboptionsFrom(form, choice, ENABLED);
    SuboptionsAreLeaves(form, choice, ENABLED);
    LeavesHaveNoIds(subs);
    var block := [BlockNode(subs)];
    assert TreeIds(block) == TreeIds(subs) + TreeIds(block[1..]);
  }

  /** A new Execute action holds no menu IDs. */
  lemma ExecuteActionIds(form: Form)
    ensures TreeIds(ExecuteAction(form).children) == multiset{}
  {
    var head := (if form.prompt != "" then [OptionNode("prompt", Some(form.prompt))] else []) +
                [OptionNode("command", Some(form.command))];
    ExecuteHeadIds(form);
    if form.checked {
      BlockIds(form, EXECUTE);
      TreeIdsConcat(head, [BlockNode(SuboptionsFrom(form, EXECUTE, ENABLED))]);
    }
  }

  /** The rows `action_option_insert` creates hold no menu IDs. */
  lemma InsertedRowIds(e: Option<string>, choice: string, form: Form)
    requires Consistent(e, choice)
    ensures var n := InsertedRow(e, choice, form); RowIds(n.row) + TreeIds(n.children) == multiset{}
  {
    var n := InsertedRow(e, choice, form);
    var kind := KindOf(e, choice);
    if kind == NewAction && choice == EXECUTE {
      assert n == ExecuteAction(form);
      ExecuteActionIds(form);
    } else if kind == NewAction {
      assert n == ActionNode(choice, if choice == RECONFIGURE then [] else [ActionOption(choice, form)]);
      LeavesHaveNoIds(n.children);
    } else if kind == ExecuteOption && choice == "Startupnotify" {
      assert n == StartupnotifyBlock(form);
      BlockIds(form, "Startupnotify");
    } else {
      assert n.row.rtype == OptionRow && n.children == [];
    }
  }

  /** The options the new row is sorted among: those of Execute or those of
      startupnotify. */
  function SortedAmongFor(kind: Kind): Option<string> {
    if kind == ExecuteOption then Some(EXECUTE) else Some("startupnotify")
  }

  /** With autosorting on, an option of Execute or of startupnotify is
      sorted among its siblings when it has any. */
  predicate SortsAfterInsertion(f: seq<Node>, s: Path, choice: string, autosort: bool)
    requires ValidPath(f, s)
  {
    autosort && KindOf(NodeAt(f, s).row.element, choice) in {ExecuteOption, StartupnotifyOption} &&
    |Kids(f, Target(f, s, choice).0)| >= 1
  }

  /** `action_option_insert`: nothing is inserted when a mandatory field is
      empty; otherwise the row the choice stands for is inserted at its
      target, the tree's menu IDs are unchanged, and with autosorting on an
      option of Execute or of startupnotify ends up among siblings in
      canonical order. */
  method ActionOptionInsert(f: seq<Node>, s: Path, choice: string, form: Form, autosort: bool)
    returns (g: seq<Node>, rejected: bool, added: Path)
    requires Offered(f, s, choice)
    requires FormShown(form, choice, NodeAt(f, s).row.element)
    ensures rejected <==> FieldMissing(choice, NodeAt(f, s).row.element, form)
    ensures rejected ==> g == f
    ensures !rejected ==> (Consistent(NodeAt(f, s).row.element, choice) &&
                           AddedUnder(f, g, Target(f, s, choice).0, added) &&
                           NodeAt(g, added) == InsertedRow(NodeAt(f, s).row.element, choice, form))
    ensures !rejected ==> TreeIds(g) == TreeIds(f)
    ensures !rejected && !SortsAfterInsertion(f, s, choice, autosort) ==>
      added == Target(f, s, choice).0 + [Target(f, s, choice).1] && RemoveNode(g, added) == f
    ensures !rejected && SortsAfterInsertion(f, s, choice, autosort) ==>
      RankSorted(Kids(g, Target(f, s, choice).0), OptionsOf(SortedAmongFor(KindOf(NodeAt(f, s).row.element, choice))))
  {
    var e := NodeAt(f, s).row.element;
    rejected := CheckMandatoryFields(choice, e, form);
    if rejected {
      g, added := f, [];
      return;
    }
    g, added := InsertActionOption(f, s, choice, form, autosort);
  }

  /** The insertion part of `action_option_insert`, once the mandatory
      fields are filled in. */
  method InsertActionOption(f: seq<Node>, s: Path, choice: string, form: Form, autosort: bool)
    returns (g: seq<Node>, added: Path)
    requires Offered(f, s, choice)
    requires FormShown(form, choice, NodeAt(f, s).row.element)
    requires !FieldMissing(choice, NodeAt(f, s).row.element, form)
    ensures Consistent(NodeAt(f, s).row.element, choice)
    ensures AddedUnder(f, g, Target(f, s, choice).0, added)
    ensures NodeAt(g, added) == InsertedRow(NodeAt(f, s).row.element, choice, form)
    ensures TreeIds(g) == TreeIds(f)
    ensures !SortsAfterInsertion(f, s, choice, autosort) ==>
      added == Target(f, s, choice).0 + [Target(f, s, choice).1] && RemoveNode(g, added) == f
    ensures SortsAfterInsertion(f, s, choice, autosort) ==>
      RankSorted(Kids(g, Target(f, s, choice).0), OptionsOf(SortedAmongFor(KindOf(NodeAt(f, s).row.element, choice))))
  {
    var e := NodeAt(f, s).row.element;
    OfferedConsistent(f, s, choice);
    var q, i := Destination(f, s, choice);
    var node := BuildInsertedRow(e, choice, form);
    var kind := KindOf(e, choice);
    var sort := autosort && kind in {ExecuteOption, StartupnotifyOption} && |Kids(f, q)| >= 1;
    if kind == ExecuteOption {
      OfferedExecuteOption(f, s, choice);
    } else if kind == StartupnotifyOption {
      OfferedStartupnotifyOption(f, s, choice);
    }
    InsertedRowIds(e, choice, form);
    g, added := PlaceNewRow(f, q, i, node, sort, SortedAmongFor(kind));
  }
}
