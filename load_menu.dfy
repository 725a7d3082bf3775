/*
 * Loading a menu file (load_menu.c).
 *
 * The XML tokenizer calls StartElement, EndElement and ElementText for every
 * event.  Each accepted start element is validated (attribute limits and
 * whitelists, menu IDs, nesting) and prepended as a depth-tagged row to the
 * build list.  BuildTree then turns the list into the tree: rows are appended
 * under the last row one level up, toplevel menus that the root menu never
 * references are marked "invisible unintegrated menu" and moved to the
 * bottom, the others are put into root-menu order, and every menu, pipe menu,
 * item and separator gets its visibility class.
 */
module LoadMenu {
  import opened Rows
  import opened Tree

  datatype Stage = Menus | RootMenu

  datatype Attr = Attr(name: string, value: string)

  datatype LoadError =
    | TooManyAttributes(element: string)
    | InvalidAttribute(element: string, attribute: string)
    | RootMenuNotToplevel
    | DuplicateAttribute(element: string, attribute: string)
    | MissingMenuId
    | DuplicateMenuId(id: string)
    | InvalidParent(element: string)

  /** Path depths are `guint`s. */
  const U32: nat := 0x1_0000_0000

  function Inc(d: nat): (r: nat)
    requires d < U32
    ensures r < U32 && (d + 1 < U32 ==> r == d + 1)
  {
    (d + 1) % U32
  }

  function Dec(d: nat): (r: nat)
    requires d < U32
    ensures r < U32 && (d > 0 ==> r == d - 1)
  {
    if d == 0 then U32 - 1 else d - 1
  }

  // ---------------------------------------------------------------------
  // Validation of a start element.

  /** At most 4 attributes for a menu, 2 for an item, 1 for a separator or an action. */
  predicate TooMany(element: string, n: nat) {
    (element == "menu" && n > 4) || (element == "item" && n > 2) ||
    ((element == "separator" || element == "action") && n > 1)
  }

  /** The attribute whitelists. */
  predicate Allowed(element: string, attribute: string) {
    (element == "menu" ==> attribute in ["id", "label", "icon", "execute"]) &&
    (element == "item" ==> attribute in ["label", "icon"]) &&
    (element == "separator" ==> attribute == "label") &&
    (element == "action" ==> attribute == "name")
  }

  /** `root-menu` may only be the ID of a toplevel menu. */
  predicate RootIdTooDeep(element: string, a: Attr, depth: nat) {
    element == "menu" && a.name == "id" && a.value == "root-menu" && depth > 1
  }

  predicate Repeated(attrs: seq<Attr>, i: nat)
    requires i < |attrs|
  {
    exists j :: 0 <= j < |attrs| && j != i && attrs[j].name == attrs[i].name
  }

  /** The attribute loop: the first attribute that is not whitelisted, that
      puts the root menu below the toplevel, or that occurs twice. */
  function AttributeError(element: string, attrs: seq<Attr>, depth: nat, i: nat): Option<LoadError>
    decreases |attrs| - i
  {
    if i >= |attrs| then None
    else if !Allowed(element, attrs[i].name) then Some(InvalidAttribute(element, attrs[i].name))
    else if RootIdTooDeep(element, attrs[i], depth) then Some(RootMenuNotToplevel)
    else if Repeated(attrs, i) then Some(DuplicateAttribute(element, attrs[i].name))
    else AttributeError(element, attrs, depth, i + 1)
  }

  predicate AttributeOk(element: string, attrs: seq<Attr>, depth: nat, i: nat)
    requires i < |attrs|
  {
    Allowed(element, attrs[i].name) && !RootIdTooDeep(element, attrs[i], depth) && !Repeated(attrs, i)
  }

  lemma {:induction false} AttributeErrorNoneIff(element: string, attrs: seq<Attr>, depth: nat, i: nat)
    ensures AttributeError(element, attrs, depth, i) == None <==>
            forall k :: i <= k < |attrs| ==> AttributeOk(element, attrs, depth, k)
    decreases |attrs| - i
  {
    if i < |attrs| {
      AttributeErrorNoneIff(element, attrs, depth, i + 1);
      assert AttributeError(element, attrs, depth, i) == None <==>
             AttributeOk(element, attrs, depth, i) && AttributeError(element, attrs, depth, i + 1) == None;
      assert (forall k :: i <= k < |attrs| ==> AttributeOk(element, attrs, depth, k)) <==>
             AttributeOk(element, attrs, depth, i) &&
             (forall k :: i + 1 <= k < |attrs| ==> AttributeOk(element, attrs, depth, k));
    }
  }

  /** The value of the first attribute called `name`. */
  function AttrValue(attrs: seq<Attr>, name: string): (r: Option<string>)
    ensures r.Some? <==> exists i :: 0 <= i < |attrs| && attrs[i].name == name
    ensures r.Some? ==> Attr(name, r.value) in attrs
  {
    if attrs == [] then None
    else if attrs[0].name == name then Some(attrs[0].value)
    else AttrValue(attrs[1..], name)
  }

  /** The duplicate-ID rule: a known ID is only allowed for the first
      root-menu reference to a toplevel menu defined before the root menu. */
  predicate IdAccepted(id: string, menuIds: seq<string>, stage: Stage, depth: nat,
                       toplevelMenus: seq<string>, toplevelRoot: seq<string>) {
    id !in menuIds ||
    (stage == RootMenu && depth == 2 && id in toplevelMenus && id !in toplevelRoot)
  }

  /** The nesting rules (checked below the toplevel only). */
  predicate ParentError(element: string, parent: string, action: Option<string>,
                        previousType: RowType, previousDepth: nat, depth: nat) {
    (element == "menu" && parent != "menu") ||
    (element == "item" && parent != "menu") ||
    (element == "separator" && parent != "menu") ||
    (element == "action" && parent != "item") ||
    (element == "prompt" && !(parent == "action" && StrIn(action, [EXECUTE, EXIT, SESSION_LOGOUT]))) ||
    (element == "command" && !(parent == "action" && StrIn(action, [EXECUTE, RESTART]))) ||
    (element == "startupnotify" && !(parent == "action" && Is(action, EXECUTE))) ||
    (element in ["enabled", "icon", "name", "wmclass"] && parent != "startupnotify") ||
    (previousType == PipeMenu && previousDepth < depth)
  }

  /** The stage after the attribute loop: a `root-menu` ID starts the root menu. */
  function StageAfter(element: string, attrs: seq<Attr>, stage: Stage): Stage {
    if element == "menu" && AttrValue(attrs, "id") == Some("root-menu") then RootMenu else stage
  }

  /** All checks of a start element, in the order the loader makes them. */
  function Rejection(element: string, attrs: seq<Attr>, parent: string, depth: nat, stage: Stage,
                     menuIds: seq<string>, toplevelMenus: seq<string>, toplevelRoot: seq<string>,
                     action: Option<string>, previousType: RowType, previousDepth: nat): Option<LoadError>
  {
    if TooMany(element, |attrs|) then Some(TooManyAttributes(element))
    else if AttributeError(element, attrs, depth, 0).Some? then AttributeError(element, attrs, depth, 0)
    else if element == "menu" && AttrValue(attrs, "id").None? then Some(MissingMenuId)
    else if element == "menu" && !IdAccepted(AttrValue(attrs, "id").value, menuIds,
                                             StageAfter(element, attrs, stage), depth,
                                             toplevelMenus, toplevelRoot)
    then Some(DuplicateMenuId(AttrValue(attrs, "id").value))
    else if depth > 1 && ParentError(element, parent, action, previousType, previousDepth, depth)
    then Some(InvalidParent(element))
    else None
  }

  /** A root-menu definition below the toplevel is always rejected. */
  lemma RootMenuBelowToplevelRejected(attrs: seq<Attr>, parent: string, depth: nat, stage: Stage,
                                      menuIds: seq<string>, toplevelMenus: seq<string>,
                                      toplevelRoot: seq<string>, action: Option<string>,
                                      previousType: RowType, previousDepth: nat)
    requires depth > 1 && Attr("id", "root-menu") in attrs
    ensures Rejection("menu", attrs, parent, depth, stage, menuIds, toplevelMenus, toplevelRoot,
                      action, previousType, previousDepth).Some?
  {
    var k :| 0 <= k < |attrs| && attrs[k] == Attr("id", "root-menu");
    AttributeErrorNoneIff("menu", attrs, depth, 0);
    assert !AttributeOk("menu", attrs, depth, k);
  }

  /** A menu whose attributes pass the attribute loop below the toplevel
      never has the ID `root-menu`. */
  lemma RootIdOnlyAtToplevel(attrs: seq<Attr>, depth: nat)
    requires depth > 1 && AttributeError("menu", attrs, depth, 0).None?
    ensures AttrValue(attrs, "id") != Some("root-menu")
  {
    AttributeErrorNoneIff("menu", attrs, depth, 0);
    forall k | 0 <= k < |attrs|
      ensures attrs[k] != Attr("id", "root-menu")
    {
      assert AttributeOk("menu", attrs, depth, k);
    }
  }

  /** Element names matched (anchored at the start) by
      `prompt|command|execute|startupnotify|enabled|wmclass|name|icon`. */
  predicate IsOptionElement(element: string) {
    exists o :: o in ["prompt", "command", "execute", "startupnotify", "enabled", "wmclass", "name", "icon"] &&
                HasPrefix(element, o)
  }

  /** The row stored for an accepted start element (its value and visibility
      are still unset). */
  function NewRow(element: string, attrs: seq<Attr>): (r: Row)
    ensures r.value == None && r.visibility == None
    ensures element == "menu" ==> r.menuId == AttrValue(attrs, "id")
    ensures element == "menu" ==> (r.rtype == PipeMenu <==> AttrValue(attrs, "execute").Some?)
    ensures element == "execute" ==> r.rtype == OptionRow && r.element == Some("command")
  {
    if element in ["menu", "item", "separator"] then
      var isMenu := element == "menu";
      var pipe := isMenu && AttrValue(attrs, "execute").Some?;
      Row(if pipe then PipeMenu else if isMenu then Menu else if element == "item" then Item else Separator,
          AttrValue(attrs, "label"), None,
          if isMenu then AttrValue(attrs, "id") else None,
          if pipe then AttrValue(attrs, "execute") else None,
          if element != "separator" then AttrValue(attrs, "icon") else None,
          None)
    else if element == "action" then
      Row(Action, if |attrs| > 0 then Some(attrs[0].value) else None, None, None, None, None, None)
    else if (assert element == "execute" ==> HasPrefix(element, "execute"); IsOptionElement(element)) then
      Row(if element == "startupnotify" then OptionBlock else OptionRow,
          Some(if element == "execute" then "command" else element), None, None, None, None, None)
    else
      Row(Unknown, None, None, None, None, None, None)
  }

  // ---------------------------------------------------------------------
  // Text content.

  /** ASCII white space: space, tab, line feed, vertical tab, form feed, carriage return. */
  predicate IsSpace(c: char) {
    c == ' ' || ('\t' <= c <= '\r')
  }

  /** The index of the first non-blank character of `s` at or after `i`. */
  function SkipSpaces(s: string, i: nat): (k: nat)
    requires i <= |s|
    ensures i <= k <= |s| && (k < |s| ==> !IsSpace(s[k]))
    ensures forall m :: i <= m < k ==> IsSpace(s[m])
    decreases |s| - i
  {
    if i == |s| || !IsSpace(s[i]) then i else SkipSpaces(s, i + 1)
  }

  /** The end of `s[lo..j]` with trailing white space removed. */
  function TrimEnd(s: string, lo: nat, j: nat): (k: nat)
    requires lo <= j <= |s|
    ensures lo <= k <= j && (k > lo ==> !IsSpace(s[k - 1]))
    ensures forall m :: k <= m < j ==> IsSpace(s[m])
    decreases j
  {
    if j == lo || !IsSpace(s[j - 1]) then j else TrimEnd(s, lo, j - 1)
  }

  /** `g_strstrip`: leading and trailing white space removed. */
  function Strip(s: string): (r: string)
    ensures r == [] || (!IsSpace(r[0]) && !IsSpace(r[|r| - 1]))
    ensures r == [] <==> forall i :: 0 <= i < |s| ==> IsSpace(s[i])
  {
    var a := SkipSpaces(s, 0);
    s[a..TrimEnd(s, a, |s|)]
  }

  /** The value an option's text gets: an `enabled` option, or the prompt of
      an Exit or SessionLogout action, only takes "yes" or "no"; any other
      text is replaced by the user's answer to the error dialog. */
  function OptionText(text: string, element: Option<string>, action: Option<string>, answerYes: bool): (v: string)
    ensures YesNoOnly(element, action) ==> v in ["yes", "no"]
    ensures text in ["yes", "no"] ==> v == text
  {
    if YesNoOnly(element, action) && text !in ["yes", "no"]
    then (if answerYes then "yes" else "no")
    else text
  }

  /** Options whose value must be "yes" or "no". */
  predicate YesNoOnly(element: Option<string>, action: Option<string>) {
    Is(element, "enabled") || (Is(element, "prompt") && StrIn(action, [EXIT, SESSION_LOGOUT]))
  }

  /** The text is replaced (and the change flag raised) exactly when the
      option only takes "yes" or "no" and the text is neither. */
  lemma OptionTextReplacedIff(text: string, element: Option<string>, action: Option<string>, answerYes: bool)
    ensures OptionText(text, element, action, answerYes) != text
            <==> YesNoOnly(element, action) && text !in ["yes", "no"]
  {
    if YesNoOnly(element, action) && text !in ["yes", "no"] {
      var v := OptionText(text, element, action, answerYes);
      assert v in ["yes", "no"];
    }
  }

  // ---------------------------------------------------------------------
  // The parser state.

  /** The menu-ID registry and the IDs of the toplevel menus defined before
      the root menu and of those referenced or defined inside it, each most
      recent first. */
  datatype Registers = Registers(menuIds: seq<string>, toplevelMenus: seq<string>, toplevelRoot: seq<string>)

  predicate RegistersValid(r: Registers) {
    Distinct(r.menuIds) && Distinct(r.toplevelMenus) && Distinct(r.toplevelRoot) &&
    Within(r.toplevelMenus, r.menuIds) && Within(r.toplevelRoot, r.menuIds)
  }

  /** Every entry of `xs` is in `ys`. */
  predicate Within(xs: seq<string>, ys: seq<string>) {
    xs == [] || (xs[0] in ys && Within(xs[1..], ys))
  }

  lemma {:induction false} WithinIff(xs: seq<string>, ys: seq<string>)
    ensures Within(xs, ys) <==> forall x :: x in xs ==> x in ys
  {
    if xs != [] {
      WithinIff(xs[1..], ys);
      assert forall x :: x in xs <==> x == xs[0] || x in xs[1..];
    }
  }

  /** Recording the ID of an accepted menu: the registry gets it unless it is
      the root menu or a root-menu reference to a menu defined before. */
  function Register(r: Registers, id: string, stage: Stage, depth: nat): Registers {
    Registers(
      if stage == RootMenu && (id == "root-menu" || id in r.toplevelMenus) then r.menuIds else [id] + r.menuIds,
      if stage == Menus && depth == 1 then [id] + r.toplevelMenus else r.toplevelMenus,
      if stage == RootMenu && depth == 2 then [id] + r.toplevelRoot else r.toplevelRoot)
  }

  /** The ID checks keep the registry free of duplicates, and every toplevel
      ID list inside it. */
  lemma RegisterKeepsValid(r: Registers, id: string, stage: Stage, depth: nat)
    requires RegistersValid(r)
    requires IdAccepted(id, r.menuIds, stage, depth, r.toplevelMenus, r.toplevelRoot)
    requires stage == RootMenu && depth == 2 ==> id != "root-menu"
    ensures RegistersValid(Register(r, id, stage, depth))
  {
    var r' := Register(r, id, stage, depth);
    WithinIff(r.toplevelMenus, r.menuIds);
    WithinIff(r.toplevelRoot, r.menuIds);
    WithinIff(r'.toplevelMenus, r'.menuIds);
    WithinIff(r'.toplevelRoot, r'.menuIds);
    if r'.menuIds != r.menuIds {
      assert id !in r.menuIds && r'.menuIds[1..] == r.menuIds;
    }
    if r'.toplevelMenus != r.toplevelMenus {
      assert id !in r.toplevelMenus && r'.toplevelMenus[1..] == r.toplevelMenus;
    }
    if r'.toplevelRoot != r.toplevelRoot {
      assert id !in r.toplevelRoot && r'.toplevelRoot[1..] == r.toplevelRoot;
    }
  }

  /** No row of the build list has a visibility yet. */
  predicate Unset(es: seq<Entry>) {
    es == [] || (es[0].row.visibility == None && Unset(es[1..]))
  }

  /** The loader's invariant: depths fit in a `guint`, the registry is
      consistent, and no built row has a visibility yet. */
  predicate LoaderValid(depth: nat, previousDepth: nat, maxDepth: nat, regs: Registers, build: seq<Entry>) {
    depth < U32 && previousDepth < U32 && maxDepth < U32 && RegistersValid(regs) && Unset(build)
  }

  /** Pushing a row without a visibility onto the build list keeps the
      loader's invariant. */
  lemma PushKeepsValid(depth: nat, maxDepth: nat, regs: Registers, build: seq<Entry>, e: Entry)
    requires depth < U32 && maxDepth < U32 && RegistersValid(regs) && Unset(build)
    requires e.row.visibility == None
    ensures LoaderValid(Inc(depth), depth, if depth > maxDepth then depth else maxDepth, regs, [e] + build)
  {
    assert ([e] + build)[1..] == build;
  }

  class MenuLoader {
    var currentDepth: nat
    var previousDepth: nat
    var maxDepth: nat
    /** The build list: one depth-tagged row per accepted start element, most recent first. */
    var build: seq<Entry>
    /** The menu-ID registry and the toplevel ID lists. */
    var regs: Registers
    var currentAction: Option<string>
    var previousType: RowType
    var depConverted: bool
    var stage: Stage
    var rootFinished: bool
    /** Whether `activate_change_done` was called while parsing, that is,
        whether an invalid yes/no value was replaced. */
    var corrected: bool

    ghost predicate Valid()
      reads this
    {
      LoaderValid(currentDepth, previousDepth, maxDepth, regs, build)
    }

    constructor ()
      ensures Valid()
      ensures currentDepth == 1 && previousDepth == 1 && maxDepth == 1
      ensures build == [] && regs == Registers([], [], [])
      ensures currentAction == None && previousType == Unknown && !depConverted
      ensures stage == Menus && !rootFinished && !corrected
    {
      currentDepth, previousDepth, maxDepth := 1, 1, 1;
      build, regs := [], Registers([], [], []);
      currentAction, previousType, depConverted := None, Unknown, false;
      stage, rootFinished, corrected := Menus, false, false;
    }

    /** `start_element`; `parent` is the name of the enclosing element on the
        tokenizer's element stack. */
    method StartElement(element: string, attrs: seq<Attr>, parent: string) returns (err: Option<LoadError>)
      requires Valid()
      modifies this
      ensures Valid()
      ensures old(rootFinished) || element == "openbox_menu" ==> err == None && unchanged(this)
      ensures !old(rootFinished) && element != "openbox_menu" ==>
                err == Rejection(element, attrs, parent, old(currentDepth), old(stage), old(regs.menuIds),
                                 old(regs.toplevelMenus), old(regs.toplevelRoot), old(currentAction),
                                 old(previousType), old(previousDepth))
      ensures err.Some? ==> unchanged(this)
      ensures !old(rootFinished) && element != "openbox_menu" && err.None? ==>
                && build == [Entry(old(currentDepth), NewRow(element, attrs))] + old(build)
                && previousDepth == old(currentDepth)
                && previousType == NewRow(element, attrs).rtype
                && maxDepth == (if old(currentDepth) > old(maxDepth) then old(currentDepth) else old(maxDepth))
                && currentDepth == Inc(old(currentDepth))
                && stage == StageAfter(element, attrs, old(stage))
                && currentAction == (if element == "action" then NewRow(element, attrs).element
                                     else old(currentAction))
                && depConverted == (old(depConverted) || element == "execute")
                && rootFinished == old(rootFinished)
                && corrected == old(corrected)
                && regs == (if element == "menu"
                            then Register(old(regs), AttrValue(attrs, "id").value, stage, old(currentDepth))
                            else old(regs))
    {
      if rootFinished || element == "openbox_menu" {
        return None;
      }
      err := Rejection(element, attrs, parent, currentDepth, stage, regs.menuIds, regs.toplevelMenus, regs.toplevelRoot,
                       currentAction, previousType, previousDepth);
      if err.None? {
        var id := if element == "menu" then AttrValue(attrs, "id") else None;
        if element == "menu" && currentDepth > 1 {
          RootIdOnlyAtToplevel(attrs, currentDepth);
        }
        Accept(NewRow(element, attrs), StageAfter(element, attrs, stage), id,
               element == "action", element == "execute");
      }
    }

    /** The part of `start_element` after all checks have passed: `row` is the
        new row, `newStage` the stage after the attribute loop and `id` the ID
        of an accepted menu. */
    method Accept(row: Row, newStage: Stage, id: Option<string>, isAction: bool, isExecute: bool)
      requires Valid() && row.visibility == None
      requires id.Some? ==>
                 IdAccepted(id.value, regs.menuIds, newStage, currentDepth, regs.toplevelMenus, regs.toplevelRoot) &&
                 (newStage == RootMenu && currentDepth == 2 ==> id.value != "root-menu")
      modifies this
      ensures Valid()
      ensures && build == [Entry(old(currentDepth), row)] + old(build)
              && previousDepth == old(currentDepth)
              && previousType == row.rtype
              && maxDepth == (if old(currentDepth) > old(maxDepth) then old(currentDepth) else old(maxDepth))
              && currentDepth == Inc(old(currentDepth))
              && stage == newStage
              && currentAction == (if isAction then row.element else old(currentAction))
              && depConverted == (old(depConverted) || isExecute)
              && rootFinished == old(rootFinished)
              && corrected == old(corrected)
              && regs == (if id.Some? then Register(old(regs), id.value, newStage, old(currentDepth)) else old(regs))
    {
      var newRegs := regs;
      if id.Some? {
        RegisterKeepsValid(regs, id.value, newStage, currentDepth);
        newRegs := Register(regs, id.value, newStage, currentDepth);
      }
      var newBuild := [Entry(currentDepth, row)] + build;
      var newMax := if currentDepth > maxDepth then currentDepth else maxDepth;
      PushKeepsValid(currentDepth, maxDepth, newRegs, build, Entry(currentDepth, row));
      var newAction := if isAction then row.element else currentAction;
      var newDepth := Inc(currentDepth);
      regs, currentAction, depConverted := newRegs, newAction, depConverted || isExecute;
      build, previousDepth, previousType, maxDepth := newBuild, currentDepth, row.rtype, newMax;
      currentDepth, stage := newDepth, newStage;
    }

    /** `end_element`: once the root menu is closed, every later event is ignored. */
    method EndElement()
      requires Valid()
      modifies this`currentDepth, this`rootFinished
      ensures Valid()
      ensures old(rootFinished) ==> unchanged(this)
      ensures !old(rootFinished) ==>
                currentDepth == Dec(old(currentDepth)) &&
                rootFinished == (stage == RootMenu && currentDepth == 1)
    {
      if rootFinished {
        return;
      }
      currentDepth := Dec(currentDepth);
      if stage == RootMenu && currentDepth == 1 {
        rootFinished := true;
      }
    }

    /** `element_text`: non-blank text sets the value of the most recently
        started row if that row is an option.  `answerYes` is the user's
        answer to the dialog shown for an invalid yes/no value. */
    method ElementText(text: string, answerYes: bool)
      requires Valid()
      modifies this`build, this`corrected
      ensures Valid()
      ensures |build| == |old(build)|
      ensures old(rootFinished) || Strip(text) == [] || old(build) == [] || old(build)[0].row.rtype != OptionRow
              ==> build == old(build) && corrected == old(corrected)
      ensures !old(rootFinished) && Strip(text) != [] && old(build) != [] && old(build)[0].row.rtype == OptionRow
              ==> var v := OptionText(Strip(text), old(build)[0].row.element, currentAction, answerYes);
                  build == [Entry(old(build)[0].depth, old(build)[0].row.(value := Some(v)))] + old(build)[1..] &&
                  (corrected <==> old(corrected) || v != Strip(text))
    {
      var stripped := Strip(text);
      if rootFinished || stripped == [] {
        return;
      }
      if build != [] && build[0].row.rtype == OptionRow {
        var v := OptionText(stripped, build[0].row.element, currentAction, answerYes);
        build := [Entry(build[0].depth, build[0].row.(value := Some(v)))] + build[1..];
        if YesNoOnly(build[0].row.element, currentAction) && stripped !in ["yes", "no"] {
          corrected := true;
        }
      }
    }
  }

  // ---------------------------------------------------------------------
  // The change flag once a menu has been loaded.

  /** `change_done` at the end of `get_tree_row_data` as written: whatever
      parsing raised is reset by `clear_global_static_data`, which runs after
      the parse; only the notice about converted `execute` options (shown
      when `notify` is on) raises it again. */
  function LoadChangeDoneAsWritten(corrected: bool, depConverted: bool, notify: bool): (c: bool)
    ensures c ==> depConverted
  {
    depConverted && notify
  }

  /** A yes/no value replaced while parsing is not recorded as a change:
      the replaced value is lost unless the menu is saved for another
      reason. */
  lemma CorrectionLost()
    ensures OptionText("maybe", Some("enabled"), Some(EXECUTE), true) == "yes"
    ensures !LoadChangeDoneAsWritten(true, false, true)
  {
  }

  /** `change_done` after loading as intended: the menu counts as changed
      when a value was replaced while parsing or when converted `execute`
      options were reported. */
  function LoadChangeDone(corrected: bool, depConverted: bool, notify: bool): (c: bool)
    ensures corrected ==> c
    ensures depConverted && notify ==> c
    ensures c ==> corrected || depConverted
  {
    corrected || (depConverted && notify)
  }

  /** With the intended flag, a loaded menu that differs from the file text
      because of a replaced yes/no value is always marked as changed. */
  lemma ReplacedValueMarksChange(text: string, element: Option<string>, action: Option<string>, answerYes: bool,
                                 corrected: bool, depConverted: bool, notify: bool)
    requires corrected == (OptionText(text, element, action, answerYes) != text)
    requires YesNoOnly(element, action) && text !in ["yes", "no"]
    ensures LoadChangeDone(corrected, depConverted, notify)
  {
    OptionTextReplacedIff(text, element, action, answerYes);
  }

  // ---------------------------------------------------------------------
  // Visibility inference (`elements_visibility`, applied in pre-order).

  /** The class a menu, pipe menu, item or separator gets: `topVis` is the
      current visibility of its toplevel row and `ancInvisible` tells whether
      a proper ancestor is invisible.  Actions, options and rows that are
      already "visible" or "invisible unintegrated menu" are left alone. */
  function ClassifyRow(r: Row, topVis: Option<string>, ancInvisible: bool): (r': Row)
    ensures r'.(visibility := r.visibility) == r
    ensures r.rtype == Action || IsOptionLike(r.rtype) ==> r' == r
    ensures r.rtype != Action && !IsOptionLike(r.rtype) ==> r'.visibility.Some?
    ensures r'.visibility != r.visibility ==>
              (Is(r'.visibility, DSCT_OF_UNINTEGRATED) <==> Is(topVis, UNINTEGRATED))
  {
    if r.rtype == Action || IsOptionLike(r.rtype) || Is(r.visibility, VISIBLE) || Is(r.visibility, UNINTEGRATED) then r
    else WithVisibility(r, Some(
      if Is(topVis, UNINTEGRATED) then DSCT_OF_UNINTEGRATED
      else if ancInvisible then DSCT_OF_INVISIBLE
      else if r.element.Some? || r.rtype == Separator then VISIBLE
      else if r.rtype == Menu then INVISIBLE_MENU
      else INVISIBLE_ITEM))
  }

  /** Classifying the rows below a toplevel row. */
  function InferBelow(ns: seq<Node>, topVis: Option<string>, anc: bool): (r: seq<Node>)
    ensures |r| == |ns|
    decreases ns
  {
    if ns == [] then []
    else
      var row := ClassifyRow(ns[0].row, topVis, anc);
      [Node(row, InferBelow(ns[0].children, topVis, anc || IsInvisible(row.visibility)))] +
      InferBelow(ns[1..], topVis, anc)
  }

  /** `gtk_tree_model_foreach (model, elements_visibility, ...)`: a toplevel
      row is its own toplevel row and has no ancestor. */
  function Infer(top: seq<Node>): (r: seq<Node>)
    ensures |r| == |top|
  {
    if top == [] then []
    else
      var row := ClassifyRow(top[0].row, top[0].row.visibility, false);
      [Node(row, InferBelow(top[0].children, row.visibility, IsInvisible(row.visibility)))] + Infer(top[1..])
  }

  /** Every row that is not an action or option has a visibility. */
  predicate Classified(ns: seq<Node>)
    decreases ns
  {
    ns == [] ||
    ((ns[0].row.rtype == Action || IsOptionLike(ns[0].row.rtype) || ns[0].row.visibility.Some?) &&
     Classified(ns[0].children) && Classified(ns[1..]))
  }

  lemma {:induction false} InferBelowClassifies(ns: seq<Node>, topVis: Option<string>, anc: bool)
    ensures Classified(InferBelow(ns, topVis, anc))
    decreases ns
  {
    if ns != [] {
      var row := ClassifyRow(ns[0].row, topVis, anc);
      InferBelowClassifies(ns[0].children, topVis, anc || IsInvisible(row.visibility));
      InferBelowClassifies(ns[1..], topVis, anc);
      var r := InferBelow(ns, topVis, anc);
      assert r[0].children == InferBelow(ns[0].children, topVis, anc || IsInvisible(row.visibility));
      assert r[1..] == InferBelow(ns[1..], topVis, anc);
    }
  }

  /** After inference every menu, pipe menu, item and separator has a class. */
  lemma {:induction false} InferClassifies(top: seq<Node>)
    ensures Classified(Infer(top))
  {
    if top != [] {
      var row := ClassifyRow(top[0].row, top[0].row.visibility, false);
      InferBelowClassifies(top[0].children, row.visibility, IsInvisible(row.visibility));
      InferClassifies(top[1..]);
      var r := Infer(top);
      assert r[1..] == Infer(top[1..]);
    }
  }

  lemma ClassifyRowIdempotent(r: Row, topVis: Option<string>, anc: bool)
    ensures ClassifyRow(ClassifyRow(r, topVis, anc), topVis, anc) == ClassifyRow(r, topVis, anc)
  {
  }

  lemma {:induction false} InferBelowIdempotent(ns: seq<Node>, topVis: Option<string>, anc: bool)
    ensures InferBelow(InferBelow(ns, topVis, anc), topVis, anc) == InferBelow(ns, topVis, anc)
    decreases ns
  {
    if ns != [] {
      var row := ClassifyRow(ns[0].row, topVis, anc);
      var anc' := anc || IsInvisible(row.visibility);
      ClassifyRowIdempotent(ns[0].row, topVis, anc);
      InferBelowIdempotent(ns[0].children, topVis, anc');
      InferBelowIdempotent(ns[1..], topVis, anc);
      var once := InferBelow(ns, topVis, anc);
      assert once[0] == Node(row, InferBelow(ns[0].children, topVis, anc'));
      assert once[1..] == InferBelow(ns[1..], topVis, anc);
    }
  }

  /** Running the inference a second time changes nothing: the "Missing
      Labels" dialog reruns it after visualising. */
  lemma {:induction false} InferIdempotent(top: seq<Node>)
    ensures Infer(Infer(top)) == Infer(top)
  {
    if top != [] {
      var row := ClassifyRow(top[0].row, top[0].row.visibility, false);
      assert ClassifyRow(row, row.visibility, false) == row;
      InferBelowIdempotent(top[0].children, row.visibility, IsInvisible(row.visibility));
      InferIdempotent(top[1..]);
      var once := Infer(top);
      assert once[0] == Node(row, InferBelow(top[0].children, row.visibility, IsInvisible(row.visibility)));
      assert once[1..] == Infer(top[1..]);
    }
  }

  /** The visibility the row at `p` ends up with, stated row by row:
      `elements_visibility` visits a row after its ancestors, so it sees the
      toplevel row's and the ancestors' visibilities as already inferred
      (a toplevel row sees its own, original one). */
  function InferredVisibility(top: seq<Node>, p: Path): (v: Option<string>)
    requires ValidPath(top, p)
    decreases |p|, 0
  {
    var r := NodeAt(top, p).row;
    if r.rtype == Action || IsOptionLike(r.rtype) || Is(r.visibility, VISIBLE) || Is(r.visibility, UNINTEGRATED) then
      r.visibility
    else
      var topVis := if |p| == 1 then r.visibility else InferredVisibility(top, [p[0]]);
      var ancestor := |p| > 1 && (PrefixValid(top, p, |p| - 1); InvisibleOnPath(top, p[..|p| - 1]));
      Some(if Is(topVis, UNINTEGRATED) then DSCT_OF_UNINTEGRATED
           else if ancestor then DSCT_OF_INVISIBLE
           else if r.element.Some? || r.rtype == Separator then VISIBLE
           else if r.rtype == Menu then INVISIBLE_MENU
           else INVISIBLE_ITEM)
  }

  /** Some row on the way down to the row at `a`, that row included, is
      invisible once inferred (`check_if_invisible_ancestor_exists`). */
  predicate InvisibleOnPath(top: seq<Node>, a: Path)
    requires ValidPath(top, a)
    decreases |a|, 1
  {
    IsInvisible(InferredVisibility(top, a)) ||
    (|a| > 1 && (PrefixValid(top, a, |a| - 1); InvisibleOnPath(top, a[..|a| - 1])))
  }

  lemma {:induction false} InferBelowIndex(ns: seq<Node>, topVis: Option<string>, anc: bool, i: nat)
    requires i < |ns|
    ensures var row := ClassifyRow(ns[i].row, topVis, anc);
            InferBelow(ns, topVis, anc)[i] == Node(row, InferBelow(ns[i].children, topVis, anc || IsInvisible(row.visibility)))
    decreases i
  {
    if i > 0 {
      InferBelowIndex(ns[1..], topVis, anc, i - 1);
      assert InferBelow(ns, topVis, anc)[i] == InferBelow(ns[1..], topVis, anc)[i - 1];
    }
  }

  lemma {:induction false} InferIndex(top: seq<Node>, i: nat)
    requires i < |top|
    ensures var row := ClassifyRow(top[i].row, top[i].row.visibility, false);
            Infer(top)[i] == Node(row, InferBelow(top[i].children, row.visibility, IsInvisible(row.visibility)))
    decreases i
  {
    if i > 0 {
      InferIndex(top[1..], i - 1);
      assert Infer(top)[i] == Infer(top[1..])[i - 1];
    }
  }

  /** The inference below a row changes no path. */
  lemma {:induction false} InferBelowPaths(ns: seq<Node>, topVis: Option<string>, anc: bool, q: Path)
    requires ValidPath(InferBelow(ns, topVis, anc), q)
    ensures ValidPath(ns, q)
    decreases |q|
  {
    if |q| > 1 {
      InferBelowIndex(ns, topVis, anc, q[0]);
      var row := ClassifyRow(ns[q[0]].row, topVis, anc);
      InferBelowPaths(ns[q[0]].children, topVis, anc || IsInvisible(row.visibility), q[1..]);
    }
  }

  /** One step down from the row at `a`: its `i`-th child is classified
      with the toplevel row's and the ancestors' inferred visibilities. */
  lemma {:induction false} ClassifyChild(top: seq<Node>, a: Path, i: nat)
    requires ValidPath(top, a) && i < |NodeAt(top, a).children|
    ensures ValidPath(top, a + [i]) && NodeAt(top, a + [i]) == NodeAt(top, a).children[i]
    ensures (a + [i])[0] == a[0]
    ensures var row := ClassifyRow(NodeAt(top, a).children[i].row, InferredVisibility(top, [a[0]]), InvisibleOnPath(top, a));
            row == NodeAt(top, a + [i]).row.(visibility := InferredVisibility(top, a + [i])) &&
            InvisibleOnPath(top, a + [i]) == (InvisibleOnPath(top, a) || IsInvisible(row.visibility))
  {
    ValidChild(top, a, i);
    var p' := a + [i];
    assert p'[0] == a[0] && p'[..|p'| - 1] == a;
  }

  /** Below the row at `a`, the inference gives every row its inferred
      visibility and changes nothing else. */
  lemma {:induction false} InferBelowAt(top: seq<Node>, a: Path, q: Path)
    requires ValidPath(top, a) && ValidPath(NodeAt(top, a).children, q)
    ensures ValidPath(top, a + q) && NodeAt(top, a + q) == NodeAt(NodeAt(top, a).children, q)
    ensures var r := InferBelow(NodeAt(top, a).children, InferredVisibility(top, [a[0]]), InvisibleOnPath(top, a));
            ValidPath(r, q) &&
            NodeAt(r, q).row == NodeAt(top, a + q).row.(visibility := InferredVisibility(top, a + q)) &&
            |NodeAt(r, q).children| == |NodeAt(top, a + q).children|
    decreases |q|
  {
    var ns := NodeAt(top, a).children;
    var i := q[0];
    ClassifyChild(top, a, i);
    InferBelowIndex(ns, InferredVisibility(top, [a[0]]), InvisibleOnPath(top, a), i);
    SplitHead(a, q);
    if |q| > 1 {
      InferBelowAt(top, a + [i], q[1..]);
    }
  }

  lemma SplitHead<T>(a: seq<T>, q: seq<T>)
    requires q != []
    ensures a + q == (a + [q[0]]) + q[1..]
    ensures |q| == 1 ==> a + q == a + [q[0]]
  {
  }

  /** The inference, row by row: the forest keeps its shape and every row
      keeps all its columns except the visibility, which becomes the one
      `InferredVisibility` states. */
  lemma {:induction false} InferAt(top: seq<Node>, p: Path)
    ensures ValidPath(Infer(top), p) <==> ValidPath(top, p)
    ensures ValidPath(top, p) ==>
              NodeAt(Infer(top), p).row == NodeAt(top, p).row.(visibility := InferredVisibility(top, p)) &&
              |NodeAt(Infer(top), p).children| == |NodeAt(top, p).children|
  {
    if p == [] || p[0] >= |top| {
      return;
    }
    var i := p[0];
    InferIndex(top, i);
    var row := ClassifyRow(top[i].row, top[i].row.visibility, false);
    var below := InferBelow(top[i].children, row.visibility, IsInvisible(row.visibility));
    assert row == top[i].row.(visibility := InferredVisibility(top, [i]));
    if |p| > 1 {
      if ValidPath(below, p[1..]) {
        InferBelowPaths(top[i].children, row.visibility, IsInvisible(row.visibility), p[1..]);
      }
      if ValidPath(top, p) {
        assert [i][0] == i && NodeAt(top, [i]) == top[i];
        assert InvisibleOnPath(top, [i]) == IsInvisible(row.visibility);
        InferBelowAt(top, [i], p[1..]);
        assert [i] + p[1..] == p;
      }
    }
  }

  // ---------------------------------------------------------------------
  // Integrating the toplevel menus when the root menu starts.

  /** A toplevel menu referenced in the root menu: "visible" when it has a
      label, "invisible menu" otherwise. */
  function Referenced(n: Node): (m: Node)
    ensures m.children == n.children && m.row.(visibility := n.row.visibility) == n.row
    ensures m.row.visibility.Some? && IsInvisible(m.row.visibility) == n.row.element.None?
  {
    Node(WithVisibility(n.row, Some(if n.row.element.Some? then VISIBLE else INVISIBLE_MENU)), n.children)
  }

  /** The position of the first row with menu ID `id`. */
  function FirstWithId(ns: seq<Node>, id: string): (k: Option<nat>)
    ensures k.Some? ==> k.value < |ns| && ns[k.value].row.menuId == Some(id) &&
                        forall j :: 0 <= j < k.value ==> ns[j].row.menuId != Some(id)
    ensures k.None? ==> forall j :: 0 <= j < |ns| ==> ns[j].row.menuId != Some(id)
  {
    if ns == [] then None
    else if ns[0].row.menuId == Some(id) then Some(0)
    else match FirstWithId(ns[1..], id)
      case None => None
      case Some(k) => Some(k + 1)
  }

  /** Row `j` is the first row carrying one of the IDs in `refs`. */
  predicate MarkedBy(top: seq<Node>, refs: seq<string>, j: nat)
    requires j < |top|
  {
    top[j].row.menuId.Some? && top[j].row.menuId.value in refs &&
    FirstWithId(top, top[j].row.menuId.value) == Some(j)
  }

  /** The toplevel rows after the first loop: each referenced menu marked. */
  function MarkAll(top: seq<Node>, refs: seq<string>): (t: seq<Node>)
    ensures |t| == |top|
  {
    seq(|top|, j requires 0 <= j < |top| => if MarkedBy(top, refs, j) then Referenced(top[j]) else top[j])
  }

  /** The IDs of `refs` found among the toplevel rows, in the reverse order
      of `refs`: since `refs` is most recent first, this is root-menu order. */
  function FoundIds(top: seq<Node>, refs: seq<string>): (r: seq<string>)
    ensures forall x :: x in r ==> x in refs && FirstWithId(top, x).Some?
  {
    if refs == [] then []
    else
      var last := refs[|refs| - 1];
      (if FirstWithId(top, last).Some? then [last] else []) + FoundIds(top, refs[..|refs| - 1])
  }

  /** The first loop: marks every toplevel menu that the root menu references
      and collects the found IDs in root-menu order. */
  method MarkReferencedMenus(top: seq<Node>, refs: seq<string>) returns (t: seq<Node>, found: seq<string>)
    ensures t == MarkAll(top, refs) && found == FoundIds(top, refs)
  {
    t, found := top, [];
    for i := 0 to |refs|
      invariant |t| == |top|
      invariant forall j :: 0 <= j < |top| ==>
                  t[j] == if MarkedBy(top, refs[..i], j) then Referenced(top[j]) else top[j]
      invariant found == FoundIds(top, refs[..i])
    {
      SameIdsAsMarked(top, refs[..i], t);
      var k := FindMenu(t, refs[i]);
      SameFirstWithId(t, top, refs[i]);
      MarkStep(top, refs, i);
      if k < |t| {
        t := t[k := Referenced(t[k])];
        found := [refs[i]] + found;
      }
    }
    assert refs[..|refs|] == refs;
  }

  /** The inner loop of the first loop: the first toplevel row with `id`,
      or the end of the rows. */
  method FindMenu(t: seq<Node>, id: string) returns (k: nat)
    ensures k <= |t| && (k < |t| <==> FirstWithId(t, id).Some?)
    ensures k < |t| ==> FirstWithId(t, id) == Some(k)
  {
    k := 0;
    while k < |t| && t[k].row.menuId != Some(id)
      invariant k <= |t|
      invariant forall j :: 0 <= j < k ==> t[j].row.menuId != Some(id)
    {
      k := k + 1;
    }
    if k < |t| {
      assert FirstWithId(t, id) == Some(k);
    } else {
      assert FirstWithId(t, id).None?;
    }
  }

  /** Marking keeps every row's menu ID. */
  lemma SameIdsAsMarked(top: seq<Node>, refs: seq<string>, t: seq<Node>)
    requires |t| == |top|
    requires forall j :: 0 <= j < |top| ==> t[j] == if MarkedBy(top, refs, j) then Referenced(top[j]) else top[j]
    ensures forall j :: 0 <= j < |t| ==> t[j].row.menuId == top[j].row.menuId
  {
    forall j | 0 <= j < |t| ensures t[j].row.menuId == top[j].row.menuId {
      if MarkedBy(top, refs, j) {
        assert t[j] == Referenced(top[j]);
      }
    }
  }

  /** Rows with the same menu IDs have the same first row with an ID. */
  lemma SameFirstWithId(t: seq<Node>, top: seq<Node>, id: string)
    requires |t| == |top| && forall j :: 0 <= j < |t| ==> t[j].row.menuId == top[j].row.menuId
    ensures FirstWithId(t, id) == FirstWithId(top, id)
  {
    var a, b := FirstWithId(t, id), FirstWithId(top, id);
    if a.Some? && b.Some? {
      assert !(a.value < b.value) && !(b.value < a.value);
    }
  }

  /** One turn of the first loop: the marks and the found IDs of one more
      reference. */
  lemma MarkStep(top: seq<Node>, refs: seq<string>, i: nat)
    requires i < |refs|
    ensures forall j :: 0 <= j < |top| ==>
      (MarkedBy(top, refs[..i + 1], j) <==> MarkedBy(top, refs[..i], j) || FirstWithId(top, refs[i]) == Some(j))
    ensures FoundIds(top, refs[..i + 1]) == (if FirstWithId(top, refs[i]).Some? then [refs[i]] else []) + FoundIds(top, refs[..i])
  {
    assert refs[..i + 1] == refs[..i] + [refs[i]];
    assert refs[..i + 1][..i] == refs[..i];
    assert refs[..i + 1][i] == refs[i];
    forall j | 0 <= j < |top|
      ensures MarkedBy(top, refs[..i + 1], j) <==> MarkedBy(top, refs[..i], j) || FirstWithId(top, refs[i]) == Some(j)
    {
      if FirstWithId(top, refs[i]) == Some(j) {
        assert top[j].row.menuId == Some(refs[i]);
      }
    }
  }

  /** The rows from position `k` on that already have a visibility. */
  function Kept(ns: seq<Node>, k: nat): (r: seq<Node>)
    requires k <= |ns|
    ensures |r| <= |ns| - k
    decreases |ns| - k
  {
    if k == |ns| then []
    else if ns[k].row.visibility.Some? then [ns[k]] + Kept(ns, k + 1)
    else Kept(ns, k + 1)
  }

  function MarkUnintegrated(n: Node): Node {
    Node(WithVisibility(n.row, Some(UNINTEGRATED)), n.children)
  }

  /** The rows from position `k` on without a visibility, marked "invisible
      unintegrated menu", in their original order. */
  function Unintegrated(ns: seq<Node>, k: nat): (r: seq<Node>)
    requires k <= |ns|
    decreases |ns| - k
  {
    if k == |ns| then []
    else if ns[k].row.visibility.None? then [MarkUnintegrated(ns[k])] + Unintegrated(ns, k + 1)
    else Unintegrated(ns, k + 1)
  }

  /** One step of the second loop on a row without a visibility: the
      unintegrated part grows by the marked row. */
  lemma MoveStepNullTail(t: seq<Node>, a: seq<Node>, a': seq<Node>, k: nat, bound: nat, bound': nat)
    requires k < bound <= |a| == |t| && bound' == bound - 1 && a[k] == t[k]
    requires a[bound..] == Unintegrated(t, k + 1)
    requires t[k].row.visibility.None?
    requires a' == a[k := a[bound']][bound' := MarkUnintegrated(a[k])]
    ensures a'[bound'..] == Unintegrated(t, k)
  {
    assert a'[bound'..] == [MarkUnintegrated(t[k])] + a[bound..];
  }

  /** One step of the second loop on a row without a visibility: the rows
      in between are the same up to order. */
  lemma MoveStepNullMiddle(t: seq<Node>, a: seq<Node>, a': seq<Node>, k: nat, bound: nat, bound': nat)
    requires k < bound <= |a| == |t| && bound' == bound - 1
    requires multiset(a[k + 1..bound]) == multiset(Kept(t, k + 1))
    requires t[k].row.visibility.None?
    requires a' == a[k := a[bound']][bound' := MarkUnintegrated(a[k])]
    ensures multiset(a'[k..bound']) == multiset(Kept(t, k))
  {
    RotateOne(a, a', k, bound', MarkUnintegrated(a[k]));
    assert Kept(t, k) == Kept(t, k + 1);
  }

  /** The slice a swap to `b'` leaves between `k` and `b'` holds the rows
      that were between `k + 1` and `b' + 1`. */
  lemma RotateOne<T>(a: seq<T>, a': seq<T>, k: nat, b': nat, x: T)
    requires k <= b' < |a| && a' == a[k := a[b']][b' := x]
    ensures multiset(a'[k..b']) == multiset(a[k + 1..b' + 1])
  {
    if k < b' {
      assert a'[k..b'] == [a[b']] + a[k + 1..b'];
      assert a[k + 1..b' + 1] == a[k + 1..b'] + [a[b']];
    } else {
      assert a[k + 1..b' + 1] == [];
    }
  }

  /** One step of the second loop on a row with a visibility. */
  lemma MoveStepKept(t: seq<Node>, a: seq<Node>, k: nat, bound: nat)
    requires k < bound <= |a| == |t|
    requires forall j :: 0 <= j <= k ==> a[j] == t[j]
    requires multiset(a[k + 1..bound]) == multiset(Kept(t, k + 1))
    requires a[bound..] == Unintegrated(t, k + 1)
    requires t[k].row.visibility.Some?
    ensures multiset(a[k..bound]) == multiset(Kept(t, k))
    ensures a[bound..] == Unintegrated(t, k)
  {
    assert multiset(a[k..bound]) == multiset(Kept(t, k)) by {
      assert a[k..bound] == [a[k]] + a[k + 1..bound];
    }
  }

  /** The second loop: scanning from the bottom, every row without a
      visibility is marked unintegrated and swapped to the bottom-most free
      position.  The rows above `bound` are the rows that had a visibility,
      in some order; below it come the unintegrated ones in their original
      order. */
  method MoveUnintegrated(t: seq<Node>) returns (a: seq<Node>, bound: nat)
    ensures |a| == |t| && bound == |Kept(t, 0)|
    ensures multiset(a[..bound]) == multiset(Kept(t, 0))
    ensures a[bound..] == Unintegrated(t, 0)
  {
    a, bound := t, |t|;
    var k := |t|;
    assert a[k..bound] == [] && Kept(t, k) == [];
    while k > 0
      invariant 0 <= k <= bound <= |a| == |t|
      invariant forall j :: 0 <= j < k ==> a[j] == t[j]
      invariant multiset(a[k..bound]) == multiset(Kept(t, k))
      invariant a[bound..] == Unintegrated(t, k)
    {
      k := k - 1;
      if a[k].row.visibility.None? {
        var bound' := bound - 1;
        var a' := a[k := a[bound']][bound' := MarkUnintegrated(a[k])];
        MoveStepNullTail(t, a, a', k, bound, bound');
        MoveStepNullMiddle(t, a, a', k, bound, bound');
        a, bound := a', bound';
      } else {
        MoveStepKept(t, a, k, bound);
      }
    }
    assert a[..bound] == a[0..bound];
    assert |multiset(a[..bound])| == |Kept(t, 0)|;
  }

  /** Every ID of `order[used..]` is carried by a row of `r[used..bound]`. */
  ghost predicate AllPresent(r: seq<Node>, order: seq<string>, used: nat, bound: nat)
    requires bound <= |r|
  {
    forall x :: used <= x < |order| ==> exists c :: used <= c < bound && r[c].row.menuId == Some(order[x])
  }

  /** Swapping two rows above `bound` keeps the rows above and below it. */
  lemma SwapKeepsRows<T>(s: seq<T>, i: nat, j: nat, bound: nat)
    requires i < bound && j < bound && bound <= |s|
    ensures multiset(s[i := s[j]][j := s[i]][..bound]) == multiset(s[..bound])
    ensures s[i := s[j]][j := s[i]][bound..] == s[bound..]
  {
    assert s[i := s[j]][j := s[i]][..bound] == s[..bound][i := s[j]][j := s[i]];
  }

  /** After the row carrying `order[used]` is swapped to position `used`,
      the remaining IDs are still present further down. */
  lemma SwapKeepsPresent(r: seq<Node>, order: seq<string>, used: nat, c: nat, bound: nat)
    requires used < c < bound <= |r| && Distinct(order) && used < |order|
    requires AllPresent(r, order, used, bound) && r[c].row.menuId == Some(order[used])
    ensures AllPresent(r[used := r[c]][c := r[used]], order, used + 1, bound)
  {
    var r' := r[used := r[c]][c := r[used]];
    forall x | used + 1 <= x < |order|
      ensures exists i :: used + 1 <= i < bound && r'[i].row.menuId == Some(order[x])
    {
      DistinctAt(order, used, x);
      var i :| used <= i < bound && r[i].row.menuId == Some(order[x]);
      if i == used {
        assert r'[c].row.menuId == Some(order[x]);
      } else {
        assert r'[i].row.menuId == Some(order[x]);
      }
    }
  }

  /** When the row at `used` already carries `order[used]`, the remaining IDs
      are present further down. */
  lemma InPlaceKeepsPresent(r: seq<Node>, order: seq<string>, used: nat, bound: nat)
    requires used < bound <= |r| && Distinct(order) && used < |order|
    requires AllPresent(r, order, used, bound) && r[used].row.menuId == Some(order[used])
    ensures AllPresent(r, order, used + 1, bound)
  {
    forall x | used + 1 <= x < |order|
      ensures exists i :: used + 1 <= i < bound && r[i].row.menuId == Some(order[x])
    {
      DistinctAt(order, used, x);
      var i :| used <= i < bound && r[i].row.menuId == Some(order[x]);
      assert i != used;
    }
  }

  /** The inner loop of the third loop: the first row from `from` on that
      carries the ID `want`. */
  method FindRow(r: seq<Node>, want: Option<string>, from: nat, bound: nat) returns (c: nat)
    requires from <= bound <= |r|
    requires exists i :: from <= i < bound && r[i].row.menuId == want
    ensures from <= c < bound && r[c].row.menuId == want
    ensures forall i :: from <= i < c ==> r[i].row.menuId != want
  {
    c := from;
    while c < bound && r[c].row.menuId != want
      invariant from <= c <= bound
      invariant forall i :: from <= i < c ==> r[i].row.menuId != want
    {
      c := c + 1;
    }
  }

  /** The third loop: the rows above `bound` are permuted so that row `x`
      carries the ID `order[x]`; a row is only ever swapped with one further
      down that carries the wanted ID. */
  method SortByRootOrder(a: seq<Node>, order: seq<string>, bound: nat) returns (r: seq<Node>)
    requires bound <= |a| && Distinct(order) && AllPresent(a, order, 0, bound)
    ensures |r| == |a| && |order| <= bound
    ensures forall x :: 0 <= x < |order| ==> r[x].row.menuId == Some(order[x])
    ensures multiset(r[..bound]) == multiset(a[..bound]) && r[bound..] == a[bound..]
  {
    r := a;
    for used := 0 to |order|
      invariant |r| == |a| && used <= bound
      invariant forall x :: 0 <= x < used ==> r[x].row.menuId == Some(order[x])
      invariant AllPresent(r, order, used, bound)
      invariant multiset(r[..bound]) == multiset(a[..bound]) && r[bound..] == a[bound..]
    {
      var want := Some(order[used]);
      if r[used].row.menuId != want {
        var c := FindRow(r, want, used + 1, bound);
        SwapKeepsPresent(r, order, used, c, bound);
        SwapKeepsRows(r, used, c, bound);
        r := r[used := r[c]][c := r[used]];
      } else {
        InPlaceKeepsPresent(r, order, used, bound);
      }
    }
  }

  /** A row with a visibility at or after `k` is among the kept rows. */
  lemma {:induction false} KeptHas(ns: seq<Node>, k: nat, j: nat)
    requires k <= j < |ns| && ns[j].row.visibility.Some?
    ensures ns[j] in Kept(ns, k)
    decreases |ns| - k
  {
    if k < j {
      KeptHas(ns, k + 1, j);
    }
  }

  /** Every kept row is a row with a visibility at or after `k`. */
  lemma {:induction false} KeptFrom(ns: seq<Node>, k: nat, n: Node)
    requires k <= |ns| && n in Kept(ns, k)
    ensures exists j :: k <= j < |ns| && ns[j] == n && ns[j].row.visibility.Some?
    decreases |ns| - k
  {
    if !(ns[k].row.visibility.Some? && ns[k] == n) {
      KeptFrom(ns, k + 1, n);
    }
  }

  /** Giving one row without a visibility a visibility adds one kept row. */
  lemma {:induction false} KeptUpdate(ns: seq<Node>, j: nat, v: Node, k: nat)
    requires k <= |ns| && j < |ns| && ns[j].row.visibility.None? && v.row.visibility.Some?
    ensures |Kept(ns[j := v], k)| == |Kept(ns, k)| + (if k <= j then 1 else 0)
    decreases |ns| - k
  {
    if k < |ns| {
      KeptUpdate(ns, j, v, k + 1);
    }
  }

  /** No toplevel row has a visibility yet. */
  predicate NoneVisible(top: seq<Node>) {
    forall j :: 0 <= j < |top| ==> top[j].row.visibility.None?
  }

  /** Exactly the found IDs are kept: one marked row for each. */
  lemma {:induction false} MarkedCount(top: seq<Node>, refs: seq<string>)
    requires NoneVisible(top) && Distinct(refs)
    ensures |Kept(MarkAll(top, refs), 0)| == |FoundIds(top, refs)|
    decreases |refs|
  {
    if refs == [] {
      assert MarkAll(top, refs) == top;
      KeptNone(top, 0);
    } else {
      var last := refs[|refs| - 1];
      var init := refs[..|refs| - 1];
      DistinctIff(refs);
      DistinctIff(init);
      MarkedCount(top, init);
      assert refs == init + [last];
      assert last !in init;
      MarkLast(top, refs);
      match FirstWithId(top, last)
      case None =>
      case Some(j) =>
        KeptUpdate(MarkAll(top, init), j, Referenced(top[j]), 0);
    }
  }

  /** The marks of one more reference, not seen before: its first row, if
      any, is marked in addition. */
  lemma MarkLast(top: seq<Node>, refs: seq<string>)
    requires refs != [] && refs[|refs| - 1] !in refs[..|refs| - 1]
    ensures var last, init := refs[|refs| - 1], refs[..|refs| - 1];
      match FirstWithId(top, last)
      case None => MarkAll(top, refs) == MarkAll(top, init)
      case Some(j) => !MarkedBy(top, init, j) && MarkAll(top, refs) == MarkAll(top, init)[j := Referenced(top[j])]
  {
    var i := |refs| - 1;
    var last, init := refs[i], refs[..i];
    MarkStep(top, refs, i);
    assert refs[..i + 1] == refs;
    match FirstWithId(top, last)
    case None =>
      assert forall j :: 0 <= j < |top| ==> MarkAll(top, refs)[j] == MarkAll(top, init)[j];
    case Some(j) =>
      assert top[j].row.menuId == Some(last);
      assert !MarkedBy(top, init, j);
      assert forall k :: 0 <= k < |top| ==> MarkAll(top, refs)[k] == MarkAll(top, init)[j := Referenced(top[j])][k];
  }

  /** Rows without a visibility are not kept. */
  lemma {:induction false} KeptNone(ns: seq<Node>, k: nat)
    requires k <= |ns| && NoneVisible(ns)
    ensures Kept(ns, k) == []
    decreases |ns| - k
  {
    if k < |ns| {
      KeptNone(ns, k + 1);
    }
  }

  /** A kept row after the first loop is a referenced toplevel menu. */
  lemma KeptIsMarked(top: seq<Node>, refs: seq<string>, n: Node)
    requires NoneVisible(top) && n in Kept(MarkAll(top, refs), 0)
    ensures n.row.menuId.Some? && FirstWithId(top, n.row.menuId.value).Some?
    ensures n == Referenced(top[FirstWithId(top, n.row.menuId.value).value])
  {
    KeptFrom(MarkAll(top, refs), 0, n);
    var j :| 0 <= j < |top| && MarkAll(top, refs)[j] == n && n.row.visibility.Some?;
    assert MarkedBy(top, refs, j);
  }

  /** Distinct references give distinct found IDs. */
  lemma {:induction false} FoundIdsDistinct(top: seq<Node>, refs: seq<string>)
    requires Distinct(refs)
    ensures Distinct(FoundIds(top, refs))
    decreases |refs|
  {
    if refs != [] {
      var last := refs[|refs| - 1];
      var init := refs[..|refs| - 1];
      DistinctIff(refs);
      DistinctIff(init);
      FoundIdsDistinct(top, init);
      assert refs == init + [last];
      assert last !in init;
      var rest := FoundIds(top, init);
      if FirstWithId(top, last).Some? {
        assert FoundIds(top, refs) == [last] + rest;
        assert last !in rest;
        assert ([last] + rest)[1..] == rest;
      } else {
        assert FoundIds(top, refs) == [] + rest == rest;
      }
    }
  }

  /** Before the third loop every found ID is carried by a kept row. */
  lemma FoundArePresent(top: seq<Node>, refs: seq<string>, a: seq<Node>, bound: nat)
    requires NoneVisible(top) && bound <= |a|
    requires multiset(a[..bound]) == multiset(Kept(MarkAll(top, refs), 0))
    ensures AllPresent(a, FoundIds(top, refs), 0, bound)
  {
    var t := MarkAll(top, refs);
    var order := FoundIds(top, refs);
    forall x | 0 <= x < |order|
      ensures exists c :: 0 <= c < bound && a[c].row.menuId == Some(order[x])
    {
      var j := FirstWithId(top, order[x]).value;
      assert MarkedBy(top, refs, j);
      KeptHas(t, 0, j);
      assert t[j] in multiset(a[..bound]);
      var c :| 0 <= c < bound && a[..bound][c] == t[j];
    }
  }

  /** After the third loop the first rows are the referenced menus. */
  lemma OrderedAreReferenced(top: seq<Node>, refs: seq<string>, r: seq<Node>, bound: nat)
    requires NoneVisible(top) && bound <= |r| && |FoundIds(top, refs)| <= bound
    requires multiset(r[..bound]) == multiset(Kept(MarkAll(top, refs), 0))
    requires forall x :: 0 <= x < |FoundIds(top, refs)| ==> r[x].row.menuId == Some(FoundIds(top, refs)[x])
    ensures forall x :: 0 <= x < |FoundIds(top, refs)| ==>
              r[x] == Referenced(top[FirstWithId(top, FoundIds(top, refs)[x]).value])
  {
    var order := FoundIds(top, refs);
    forall x | 0 <= x < |order|
      ensures r[x] == Referenced(top[FirstWithId(top, order[x]).value])
    {
      assert r[x] == r[..bound][x];
      assert r[x] in multiset(r[..bound]);
      KeptIsMarked(top, refs, r[x]);
    }
  }

  /** `get_tree_row_data` when the root menu starts (load_menu.c:1042-1091):
      the toplevel menus referenced in the root menu come first, in
      root-menu order, marked "visible" or "invisible menu"; the others
      follow in their original order, marked "invisible unintegrated menu".
      `refs` are the IDs referenced or defined at the root menu's toplevel,
      most recent first. */
  method IntegrateToplevel(top: seq<Node>, refs: seq<string>) returns (r: seq<Node>)
    requires NoneVisible(top) && Distinct(refs)
    ensures r == Integrated(top, refs)
    ensures |r| == |top| && |FoundIds(top, refs)| <= |top|
    ensures forall x :: 0 <= x < |FoundIds(top, refs)| ==>
              r[x] == Referenced(top[FirstWithId(top, FoundIds(top, refs)[x]).value])
    ensures r[|FoundIds(top, refs)|..] == Unintegrated(MarkAll(top, refs), 0)
  {
    var t, order := MarkReferencedMenus(top, refs);
    var a, bound := MoveUnintegrated(t);
    MarkedCount(top, refs);
    FoundIdsDistinct(top, refs);
    FoundArePresent(top, refs, a, bound);
    r := SortByRootOrder(a, order, bound);
    OrderedAreReferenced(top, refs, r, bound);
    var found := FoundIds(top, refs);
    assert r[..|found|] == Integrated(top, refs)[..|found|];
    assert r == r[..|found|] + r[|found|..];
  }

  /** The toplevel rows after the integration: the referenced menus in
      root-menu order, then the unreferenced ones, marked unintegrated. */
  function Integrated(top: seq<Node>, refs: seq<string>): seq<Node> {
    var found := FoundIds(top, refs);
    seq(|found|, x requires 0 <= x < |found| => Referenced(top[FirstWithId(top, found[x]).value]))
    + Unintegrated(MarkAll(top, refs), 0)
  }

  /** Without toplevel rows there is nothing to integrate. */
  lemma {:induction false} IntegratedEmpty(refs: seq<string>)
    ensures Integrated([], refs) == []
  {
    var found := FoundIds([], refs);
    if found != [] {
      assert found[0] in found;
    }
  }

  // ---------------------------------------------------------------------
  // Filling the tree (`get_tree_row_data`, load_menu.c:956-1172).

  /** The tree level of a row: its path depth minus one, and minus one more
      inside the root menu, whose own row is not part of the tree. */
  function Level(depth: nat, rootStage: bool): nat {
    var off := if rootStage then 2 else 1;
    if depth > off then depth - off else 0
  }

  /** A row at `level` >= 1 goes under the last row one level up, below the
      toplevel row `cur` (`levels[level - 1]`). */
  function AppendBelow(top: seq<Node>, cur: nat, level: nat, r: Row): (t: seq<Node>)
    requires cur < |top| && level >= 1
    ensures |t| == |top| && t[cur].row == top[cur].row
    ensures forall j :: 0 <= j < |top| && j != cur ==> t[j] == top[j]
  {
    top[cur := Node(top[cur].row, AppendAtDepth(top[cur].children, level, r))]
  }

  /** Below the last toplevel row this is the append of the pre-order rebuild. */
  lemma AppendBelowLast(top: seq<Node>, depth: nat, r: Row)
    requires top != [] && depth >= 2
    ensures AppendBelow(top, |top| - 1, depth - 1, r) == AppendAtDepth(top, depth, r)
  {
  }

  /** `gtk_tree_store_insert` at toplevel position `pos`; a position past the
      end appends. */
  function InsertAt(top: seq<Node>, pos: nat, n: Node): (t: seq<Node>)
    ensures |t| == |top| + 1 && t[if pos <= |top| then pos else |top|] == n
  {
    if pos <= |top| then top[..pos] + [n] + top[pos..] else top + [n]
  }

  /** The icon of a root-menu reference is given to the first toplevel row
      with the same menu ID. */
  function CopyIcon(top: seq<Node>, r: Row): (t: seq<Node>)
    ensures |t| == |top|
  {
    if r.menuId.None? then top
    else match FirstWithId(top, r.menuId.value)
      case None => top
      case Some(k) => top[k := Node(top[k].row.(icon := r.icon), top[k].children)]
  }

  predicate IsRootMenuRow(e: Entry) {
    Is(e.row.menuId, "root-menu")
  }

  /** The state of the loop of `get_tree_row_data`: the toplevel rows, the
      toplevel row below which rows are appended (`levels[0]`), the
      position of the next row at the root menu's toplevel (`row_number`)
      and whether rows are added (`add_row`). */
  datatype Loading = Loading(top: seq<Node>, cur: nat, rowNumber: nat, addRow: bool)

  predicate CurValid(s: Loading) {
    s.cur < |s.top| || s.top == []
  }

  /** A row between the root menu's own row and the end: a menu, pipe
      menu, item or separator at the root menu's toplevel is inserted at
      `row_number`, except an unlabelled reference to a menu defined
      outside the root menu, which adds no row and stops the rows below it
      from being added; a menu there with an icon gives it to the toplevel
      menu with its ID.  Other rows are appended below the last row one
      level up, when rows are added. */
  function RootStep(s: Loading, e: Entry, toplevelMenus: seq<string>): (s': Loading)
    requires CurValid(s)
    ensures CurValid(s')
  {
    var level := Level(e.depth, true);
    if level == 0 && IsMenuLevel(e.row.rtype) then
      var top := if e.row.rtype == Menu && e.row.icon.Some? then CopyIcon(s.top, e.row) else s.top;
      var add := !(e.row.rtype == Menu && e.row.element.None? && StrIn(e.row.menuId, toplevelMenus));
      if add then
        var top' := InsertAt(top, s.rowNumber, Node(e.row, []));
        Loading(top', if s.rowNumber <= |top'| - 1 then s.rowNumber else |top'| - 1, s.rowNumber + 1, true)
      else Loading(top, s.cur, s.rowNumber + 1, false)
    else if !s.addRow then s
    else if level == 0 || s.top == [] then Loading(s.top + [Node(e.row, [])], |s.top|, s.rowNumber, true)
    else Loading(AppendBelow(s.top, s.cur, level, e.row), s.cur, s.rowNumber, true)
  }

  /** The root stage over the rows `es`; further rows with the root menu's
      ID are skipped. */
  function RootFold(s: Loading, es: seq<Entry>, toplevelMenus: seq<string>): (s': Loading)
    requires CurValid(s)
    ensures CurValid(s')
    decreases |es|
  {
    if es == [] then s
    else
      var p := RootFold(s, es[..|es| - 1], toplevelMenus);
      if IsRootMenuRow(es[|es| - 1]) then p else RootStep(p, es[|es| - 1], toplevelMenus)
  }

  /** The state when the root menu starts: the toplevel rows integrated,
      appending still below the last toplevel row. */
  function Integration(top: seq<Node>, refs: seq<string>): (s: Loading)
    ensures CurValid(s)
  {
    var t := Integrated(top, refs);
    Loading(t, if t == [] then 0 else |t| - 1, 0, true)
  }

  /** The position of the first row with the root menu's ID. */
  function FirstRoot(es: seq<Entry>): (j: Option<nat>)
    ensures j.Some? ==> j.value < |es| && IsRootMenuRow(es[j.value]) &&
                        forall k :: 0 <= k < j.value ==> !IsRootMenuRow(es[k])
    ensures j.None? ==> forall k :: 0 <= k < |es| ==> !IsRootMenuRow(es[k])
  {
    if es == [] then None
    else if IsRootMenuRow(es[0]) then Some(0)
    else match FirstRoot(es[1..])
      case None => None
      case Some(k) => Some(k + 1)
  }

  /** One more row of the root stage. */
  lemma {:induction false} RootFoldNext(s: Loading, es: seq<Entry>, j: nat, i: nat, toplevelMenus: seq<string>)
    requires CurValid(s) && j < i < |es|
    ensures RootFold(s, es[j + 1..i + 1], toplevelMenus)
            == if IsRootMenuRow(es[i]) then RootFold(s, es[j + 1..i], toplevelMenus)
               else RootStep(RootFold(s, es[j + 1..i], toplevelMenus), es[i], toplevelMenus)
  {
    var w := es[j + 1..i + 1];
    assert w[..|w| - 1] == es[j + 1..i] && w[|w| - 1] == es[i];
  }

  // The unintegrated menus stay last.

  /** A row at the root menu's toplevel that refers, without a label, to a
      menu defined outside the root menu: no row is added for it. */
  predicate SkipsRow(e: Entry, toplevelMenus: seq<string>) {
    Level(e.depth, true) == 0 && e.row.rtype == Menu && e.row.element.None? && StrIn(e.row.menuId, toplevelMenus)
  }

  function Skipped(es: seq<Entry>, toplevelMenus: seq<string>): nat
    decreases |es|
  {
    if es == [] then 0
    else Skipped(es[..|es| - 1], toplevelMenus) + (if SkipsRow(es[|es| - 1], toplevelMenus) then 1 else 0)
  }

  /** Two rows of toplevel rows that differ at most in their icons. */
  predicate SameButIcons(a: seq<Node>, b: seq<Node>) {
    |a| == |b| && forall i :: 0 <= i < |a| ==> a[i].children == b[i].children && a[i].row.(icon := b[i].row.icon) == b[i].row
  }

  /** The last `u` rows of `s` are still the last `u` rows of `t`, icons
      aside, and rows go in at `row_number` in front of them: `k` rows
      were skipped so far. */
  predicate Kept0(s: Loading, t: Loading, u: nat, k: nat) {
    CurValid(t) && u <= |s.top| && u <= |t.top| && t.rowNumber + |s.top| <= |t.top| + k
    && SameButIcons(t.top[|t.top| - u..], s.top[|s.top| - u..])
  }

  /** Moreover rows are appended below a row in front of them. */
  predicate TailKept(s: Loading, t: Loading, u: nat, k: nat) {
    Kept0(s, t, u, k) && (t.addRow ==> t.cur < t.rowNumber)
  }

  lemma {:induction false} CopyIconSame(top: seq<Node>, r: Row)
    ensures SameButIcons(CopyIcon(top, r), top)
  {
  }

  lemma {:induction false} SameButIconsTail(a: seq<Node>, b: seq<Node>, c: seq<Node>, u: nat)
    requires SameButIcons(a, b) && u <= |a| && SameButIcons(b[|b| - u..], c)
    ensures SameButIcons(a[|a| - u..], c)
  {
    forall i | 0 <= i < u ensures a[|a| - u..][i].children == c[i].children && a[|a| - u..][i].row.(icon := c[i].row.icon) == c[i].row {
      assert a[|a| - u..][i] == a[|a| - u + i] && b[|b| - u..][i] == b[|b| - u + i];
    }
  }

  lemma {:induction false} InsertKeepsTail(top: seq<Node>, p: nat, n: Node, u: nat)
    requires p + u <= |top|
    ensures InsertAt(top, p, n)[|top| + 1 - u..] == top[|top| - u..]
  {
    assert InsertAt(top, p, n) == top[..p] + [n] + top[p..];
  }

  lemma {:induction false} AppendKeepsTail(top: seq<Node>, cur: nat, level: nat, r: Row, u: nat)
    requires cur + u < |top| && level >= 1
    ensures AppendBelow(top, cur, level, r)[|top| - u..] == top[|top| - u..]
  {
    var t := AppendBelow(top, cur, level, r);
    var a, b := t[|top| - u..], top[|top| - u..];
    forall i | 0 <= i < u ensures a[i] == b[i] {
      assert t[|top| - u + i] == top[|top| - u + i];
    }
  }

  /** The icon given away by a row at the root menu's toplevel. */
  function IconGiven(top: seq<Node>, e: Entry): seq<Node> {
    if e.row.rtype == Menu && e.row.icon.Some? then CopyIcon(top, e.row) else top
  }

  /** A row at the root menu's toplevel, step by step: the toplevel rows
      after the icon is given away, then the insert at `row_number` unless
      the row is skipped. */
  lemma RootStepAtToplevel(t: Loading, e: Entry, toplevelMenus: seq<string>)
    requires CurValid(t) && Level(e.depth, true) == 0 && IsMenuLevel(e.row.rtype)
    ensures var t', top := RootStep(t, e, toplevelMenus), IconGiven(t.top, e);
      t'.rowNumber == t.rowNumber + 1 &&
      (SkipsRow(e, toplevelMenus) ==> t'.top == top && !t'.addRow) &&
      (!SkipsRow(e, toplevelMenus) ==> t'.top == InsertAt(top, t.rowNumber, Node(e.row, [])) && t'.addRow && t'.cur <= t.rowNumber)
  {
  }

  /** A row at the root menu's toplevel: inserted at `row_number`, or
      skipped. */
  lemma {:induction false} TailStepToplevel(s: Loading, t: Loading, e: Entry, toplevelMenus: seq<string>, u: nat, k: nat)
    requires Kept0(s, t, u, k) && Level(e.depth, true) == 0 && IsMenuLevel(e.row.rtype)
    requires k + (if SkipsRow(e, toplevelMenus) then 1 else 0) + u <= |s.top|
    ensures TailKept(s, RootStep(t, e, toplevelMenus), u, k + if SkipsRow(e, toplevelMenus) then 1 else 0)
  {
    var top := IconGiven(t.top, e);
    CopyIconSame(t.top, e.row);
    SameButIconsTail(top, t.top, s.top[|s.top| - u..], u);
    RootStepAtToplevel(t, e, toplevelMenus);
    if !SkipsRow(e, toplevelMenus) {
      InsertKeepsTail(top, t.rowNumber, Node(e.row, []), u);
    }
  }

  /** A row below one at the root menu's toplevel: appended below a row in
      front of the last `u`, or not added. */
  lemma {:induction false} TailStepBelow(s: Loading, t: Loading, e: Entry, toplevelMenus: seq<string>, u: nat, k: nat)
    requires TailKept(s, t, u, k) && Level(e.depth, true) > 0 && k + u <= |s.top|
    ensures TailKept(s, RootStep(t, e, toplevelMenus), u, k)
  {
    if t.addRow && t.top != [] {
      AppendKeepsTail(t.top, t.cur, Level(e.depth, true), e.row, u);
    }
  }

  lemma {:induction false} RootFoldPrefix(s: Loading, es: seq<Entry>, n: nat, toplevelMenus: seq<string>)
    requires CurValid(s) && 1 <= n <= |es|
    ensures RootFold(s, es[..n], toplevelMenus)
            == if IsRootMenuRow(es[n - 1]) then RootFold(s, es[..n - 1], toplevelMenus)
               else RootStep(RootFold(s, es[..n - 1], toplevelMenus), es[n - 1], toplevelMenus)
    ensures Skipped(es[..n], toplevelMenus) == Skipped(es[..n - 1], toplevelMenus) + if SkipsRow(es[n - 1], toplevelMenus) then 1 else 0
  {
    var w := es[..n];
    assert w[..n - 1] == es[..n - 1] && w[n - 1] == es[n - 1];
  }

  /** The root stage keeps the unintegrated menus last, in their order and
      with their rows below them (icons aside): every row at the root
      menu's toplevel is a menu, pipe menu, item or separator, the root
      menu starts with one, and no more references are skipped than there
      are rows in front of the last `u`. */
  lemma {:induction false} RootTailKept(s: Loading, es: seq<Entry>, toplevelMenus: seq<string>, u: nat, n: nat)
    requires CurValid(s) && s.rowNumber == 0 && 1 <= n <= |es| && u <= |s.top|
    requires forall i :: 0 <= i < |es| ==> !IsRootMenuRow(es[i])
    requires forall i :: 0 <= i < |es| ==> Level(es[i].depth, true) == 0 ==> IsMenuLevel(es[i].row.rtype)
    requires Level(es[0].depth, true) == 0
    requires Skipped(es[..n], toplevelMenus) + u <= |s.top|
    ensures TailKept(s, RootFold(s, es[..n], toplevelMenus), u, Skipped(es[..n], toplevelMenus))
    decreases n
  {
    RootFoldPrefix(s, es, n, toplevelMenus);
    var k := Skipped(es[..n - 1], toplevelMenus);
    var e := es[n - 1];
    if n == 1 {
      assert es[..0] == [];
      assert Kept0(s, s, u, 0);
      TailStepToplevel(s, s, e, toplevelMenus, u, 0);
    } else {
      RootTailKept(s, es, toplevelMenus, u, n - 1);
      if Level(e.depth, true) == 0 {
        TailStepToplevel(s, RootFold(s, es[..n - 1], toplevelMenus), e, toplevelMenus, u, k);
      } else {
        TailStepBelow(s, RootFold(s, es[..n - 1], toplevelMenus), e, toplevelMenus, u, k);
      }
    }
  }

  /** The toplevel rows `get_tree_row_data` builds from the rows `es`, before
      the visibility classes: the pre-order rebuild of the rows before the
      root menu, integrated when it starts, then the root stage. */
  function Loaded(es: seq<Entry>, toplevelMenus: seq<string>, toplevelRoot: seq<string>): seq<Node> {
    match FirstRoot(es)
    case None => Fold([], es)
    case Some(j) => RootFold(Integration(Fold([], es[..j]), toplevelRoot), es[j + 1..], toplevelMenus).top
  }

  /** One row that is not the root menu's own row, added to the toplevel
      rows `top` (or dropped): before the root menu each row is appended
      as the pre-order rebuild appends it. */
  method LoadRow(top: seq<Node>, cur: nat, rowNumber: nat, rootStage: bool, addRow: bool, e: Entry,
                 toplevelMenus: seq<string>)
    returns (top': seq<Node>, cur': nat, rowNumber': nat, addRow': bool)
    requires cur < |top| || top == []
    requires !rootStage ==> addRow && NoneVisible(top) && (top != [] ==> cur == |top| - 1)
    requires e.row.visibility == None
    ensures cur' < |top'| || top' == []
    ensures rootStage ==> Loading(top', cur', rowNumber', addRow') == RootStep(Loading(top, cur, rowNumber, addRow), e, toplevelMenus)
    ensures !rootStage ==>
      addRow' && rowNumber' == rowNumber && top' == AppendAtDepth(top, e.depth, e.row) && NoneVisible(top') && (top' != [] ==> cur' == |top'| - 1)
  {
    top', cur', rowNumber', addRow' := top, cur, rowNumber, addRow;
    var level := Level(e.depth, rootStage);
    if rootStage && level == 0 && IsMenuLevel(e.row.rtype) {
      if e.row.rtype == Menu && e.row.icon.Some? {
        top' := CopyIcon(top', e.row);
      }
      addRow' := !(e.row.rtype == Menu && e.row.element.None? && StrIn(e.row.menuId, toplevelMenus));
      if addRow' {
        top' := InsertAt(top', rowNumber', Node(e.row, []));
        cur' := if rowNumber' <= |top'| - 1 then rowNumber' else |top'| - 1;
      }
      rowNumber' := rowNumber' + 1;
    } else if addRow' {
      if level == 0 || top' == [] {
        top' := top' + [Node(e.row, [])];
        cur' := |top'| - 1;
      } else {
        if !rootStage {
          AppendBelowLast(top', e.depth, e.row);
        }
        top' := AppendBelow(top', cur', level, e.row);
      }
    }
  }

  /** The rows of a document in the order the loader accepted them: the
      root menu's own row starts the root stage and is not added; the rows
      at the root menu's toplevel are inserted one after the other at the
      top of the toplevel, and an unlabelled reference to a menu defined
      before the root menu (`toplevelMenus`) adds no row, nor do the rows
      that follow it up to the next row at the root menu's toplevel.
      `toplevelRoot` are the IDs at the root menu's toplevel, most recent
      first.  Every row then gets its visibility class. */
  lemma {:induction false} LoadedWithRoot(es: seq<Entry>, toplevelMenus: seq<string>, toplevelRoot: seq<string>, j: nat)
    requires j < |es| && IsRootMenuRow(es[j]) && forall k :: 0 <= k < j ==> !IsRootMenuRow(es[k])
    ensures Loaded(es, toplevelMenus, toplevelRoot)
            == RootFold(Integration(Fold([], es[..j]), toplevelRoot), es[j + 1..], toplevelMenus).top
  {
  }

  lemma {:induction false} LoadedWithoutRoot(es: seq<Entry>, toplevelMenus: seq<string>, toplevelRoot: seq<string>)
    requires forall k :: 0 <= k < |es| ==> !IsRootMenuRow(es[k])
    ensures Loaded(es, toplevelMenus, toplevelRoot) == Fold([], es)
  {
  }

  /** Builds the tree from the accepted rows, then gives every row its
      visibility class. */
  method BuildTree(es: seq<Entry>, toplevelMenus: seq<string>, toplevelRoot: seq<string>)
    returns (tree: seq<Node>)
    requires forall i :: 0 <= i < |es| ==> es[i].row.visibility == None
    requires Distinct(toplevelRoot)
    ensures tree == Infer(Loaded(es, toplevelMenus, toplevelRoot))
    ensures Classified(tree)
  {
    var top := LoadRows(es, toplevelMenus, toplevelRoot);
    tree := Infer(top);
    InferClassifies(top);
  }

  /** The rows of a document put into the tree one after the other, the
      toplevel rows integrated when the root menu starts.  The loop of
      `get_tree_row_data` is written as its two stages: the rows before the
      root menu's own row, then the root stage. */
  method LoadRows(es: seq<Entry>, toplevelMenus: seq<string>, toplevelRoot: seq<string>)
    returns (tree: seq<Node>)
    requires forall i :: 0 <= i < |es| ==> es[i].row.visibility == None
    requires Distinct(toplevelRoot)
    ensures tree == Loaded(es, toplevelMenus, toplevelRoot)
  {
    var top, cur, j := LoadBeforeRoot(es, toplevelMenus);
    if j == |es| {
      assert es[..j] == es;
      LoadedWithoutRoot(es, toplevelMenus, toplevelRoot);
      return top;
    }
    if top != [] {
      top := IntegrateToplevel(top, toplevelRoot);
    } else {
      IntegratedEmpty(toplevelRoot);
    }
    assert Loading(top, cur, 0, true) == Integration(Fold([], es[..j]), toplevelRoot);
    tree := LoadRootStage(es, j, top, cur, toplevelMenus);
    LoadedWithRoot(es, toplevelMenus, toplevelRoot, j);
  }

  /** The rows before the root menu's own row (`j`, or all of them when
      there is none), appended in pre-order. */
  method LoadBeforeRoot(es: seq<Entry>, toplevelMenus: seq<string>) returns (top: seq<Node>, cur: nat, j: nat)
    requires forall i :: 0 <= i < |es| ==> es[i].row.visibility == None
    ensures j <= |es| && top == Fold([], es[..j]) && NoneVisible(top)
    ensures if top == [] then cur == 0 else cur == |top| - 1
    ensures forall k :: 0 <= k < j ==> !IsRootMenuRow(es[k])
    ensures j < |es| ==> IsRootMenuRow(es[j])
  {
    top, cur, j := [], 0, 0;
    while j < |es| && !IsRootMenuRow(es[j])
      invariant j <= |es|
      invariant top == Fold([], es[..j]) && NoneVisible(top)
      invariant if top == [] then cur == 0 else cur == |top| - 1
      invariant forall k :: 0 <= k < j ==> !IsRootMenuRow(es[k])
    {
      FoldSnoc([], es, j);
      var rowNumber, addRow;
      top, cur, rowNumber, addRow := LoadRow(top, cur, 0, false, true, es[j], toplevelMenus);
      j := j + 1;
    }
  }

  /** The root stage: the rows after the root menu's own row `j`, starting
      from the integrated toplevel rows `top` with rows appended below
      `top[cur]`. */
  method LoadRootStage(es: seq<Entry>, j: nat, top: seq<Node>, cur: nat, toplevelMenus: seq<string>)
    returns (tree: seq<Node>)
    requires forall i :: 0 <= i < |es| ==> es[i].row.visibility == None
    requires j < |es| && (cur < |top| || top == [])
    ensures tree == RootFold(Loading(top, cur, 0, true), es[j + 1..], toplevelMenus).top
  {
    ghost var s0 := Loading(top, cur, 0, true);
    var t, c, rowNumber: nat, addRow := top, cur, 0, true;
    var i := j + 1;
    assert es[j + 1..i] == [];
    while i < |es|
      invariant j < i <= |es|
      invariant Loading(t, c, rowNumber, addRow) == RootFold(s0, es[j + 1..i], toplevelMenus)
    {
      RootFoldNext(s0, es, j, i, toplevelMenus);
      if !IsRootMenuRow(es[i]) {
        t, c, rowNumber, addRow := LoadRow(t, c, rowNumber, true, addRow, es[i], toplevelMenus);
      }
      i := i + 1;
    }
    assert es[j + 1..i] == es[j + 1..];
    tree := t;
  }
}
