# Kickshaw menu model

Kickshaw is a GTK editor for the menu files of the Openbox window manager.
Under its widgets lies a document model: a tree of rows, each with a type
(`menu`, `pipe menu`, `item`, `separator`, `action`, `option` or
`option block`), an element or label, a value, a menu ID, an execute
command, an icon path and a visibility class, together with a registry of
the menu IDs in use.  This project models that document model in Dafny and
proves the rules the editor keeps about it:

- `rows.dfy`, `tree.dfy` (modules `Rows`, `Tree`): rows, the tree store as a
  forest addressed by paths, the pre-order walk `gtk_tree_model_foreach`
  makes and the rebuild of a walk into a forest.
- `load_menu.dfy` (`LoadMenu`): the loader.  Class `MenuLoader` holds the
  fields of `menu_building_data` and its methods handle the start, end and
  text events of the tokenizer: attribute whitelists and limits, menu-ID
  uniqueness with the root-menu exception, nesting rules and depth
  bookkeeping.  The functions after it turn the accepted rows into the
  tree, integrate the toplevel menus referenced by the root menu, and infer
  each row's visibility class.
- `save_menu.dfy`, `save_structure.dfy` (`SaveMenu`, `SaveStructure`): the
  writer.  Class `MenuWriter` appends the lines of the file as
  `closing_tags`, `write_tag`, `treestore_save_process_iteration`,
  `process_menu_or_item` and `save_menu` write them.  The second file
  proves that for a well-formed tree the lines are properly nested: every
  tag is closed, in order, at its own indentation, and escaped values read
  back as written.
- `editing.dfy` (`Editing`): the canonical option sort, moving rows,
  visualising invisible rows, editing cells and toggling yes/no options.
- `adding_and_deleting.dfy`, `action_options.dfy` (`AddingAndDeleting`,
  `ActionOptions`): adding rows with fresh `New menu N` IDs, inserting
  actions and options from the option form, and removing rows while
  keeping the registry equal to the IDs in the tree.
- `registry.dfy` (`Registry`): the menu-ID registry.
- `drag_and_drop.dfy` (`DragAndDrop`): drop legality, the copy of the
  dragged subtrees and the removal of the sources.
- `selecting.dfy` (`Selecting`): the rule that blocks dragging a
  multi-selection and the controls `row_selected` switches on and off.
- `find.dfy` (`Find`): the list of found occurrences and the jumps over it.
- `kickshaw.dfy`, `globals.dfy`, `auxiliary.dfy` (`Kickshaw`, `Globals`,
  `Auxiliary`): the helpers of the main file, the editor's global state
  (class `Editor`), and the string and array helpers.

One behaviour is modelled as the code has it without being reported as a
finding: in the root stage of `get_tree_row_data`, `add_row` is only set at
a row of the root menu's toplevel (source/load_menu.c:1104-1142), so the rows
below an unlabelled reference to a menu defined before the root menu are
dropped along with the reference.  `LoadMenu.LoadRow` and
`LoadMenu.RootStep` do the same.  Such a reference stands for a menu whose
content already is in the tree, so nothing defined in the file is lost
when the reference has no content of its own.

## Model

| member | source | states |
|---|---|---|
| Tree.PathsExactly | source/find.c:155 | `gtk_tree_model_foreach` visits exactly the rows of the tree |
| Tree.PathsIncreasing | source/find.c:155 | `gtk_tree_model_foreach` visits the rows in pre-order, each path after the ones before it |
| Tree.AppendAtDepth | source/load_menu.c:1142-1160 | a row at depth 1 adds a toplevel row; a deeper row is appended below the last row one level up |
| Tree.FoldConcat | source/load_menu.c:998-1172 | rebuilding two runs of rows is rebuilding the first, then the second |
| Tree.FoldFlatten | source/drag_and_drop.c:477-524 | rebuilding the pre-order walk of rows gives the same rows back, so a copy keeps the shape of what was dragged |
| Tree.SubtreeRoundTrip | source/drag_and_drop.c:477-524 | a row and its descendants one level deeper are rebuilt into that row with its children |
| Tree.TreeIdsPermutation | source/editing.c:187-210 | reordering siblings keeps the menu IDs of the tree |
| Tree.TreeIdsRemoveNode | source/adding_and_deleting.c:1018-1031 | removing a row removes exactly its own ID and those of its descendants |
| Tree.TreeIdsInsertNode | source/adding_and_deleting.c:134-171 | inserting a row adds exactly its own ID and those of its descendants |
| Tree.RemoveKeepsEarlier | source/adding_and_deleting.c:990-1049 | removing a row keeps every row that comes before it in the walk, at the same path |
| Tree.RemoveNodeKeepsRules | source/adding_and_deleting.c:990-1049 | removing a row keeps every menu with an ID and menus only below menus |
| Tree.FlattenHasIds | source/drag_and_drop.c:477-524 | every menu or pipe menu met on the walk has an ID |
| LoadMenu.Inc | source/load_menu.c:443 | the `guint` depth counter goes up by one and wraps to 0 at 2^32 |
| LoadMenu.Dec | source/load_menu.c:462 | the `guint` depth counter goes down by one and wraps to 2^32 - 1 below 0 |
| LoadMenu.AttributeErrorNoneIff | source/load_menu.c:142-197 | the attribute loop accepts exactly when every attribute is whitelisted, does not put the root menu below the toplevel and occurs once |
| LoadMenu.AttrValue | source/load_menu.c:165-183 | the value found is that of an attribute with the name, and one is found exactly when the name occurs |
| LoadMenu.RootMenuBelowToplevelRejected | source/load_menu.c:170-176 | a `root-menu` ID below the toplevel is always rejected |
| LoadMenu.RootIdOnlyAtToplevel | source/load_menu.c:170-176 | a menu accepted below the toplevel never has the ID `root-menu` |
| LoadMenu.NewRow | source/load_menu.c:264-436 | a new row has no value and no visibility; a menu carries its ID, is a pipe menu exactly with an `execute` attribute, and a deprecated `execute` option becomes a `command` option |
| LoadMenu.SkipSpaces | source/load_menu.c:483 | the index of the first non-blank character, with only blanks before it |
| LoadMenu.TrimEnd | source/load_menu.c:483 | the end of the text with only blanks after it |
| LoadMenu.Strip | source/load_menu.c:483 | the stripped text neither starts nor ends with a blank, and is empty exactly when the text is all blanks |
| LoadMenu.OptionText | source/load_menu.c:488-521 | an `enabled` option or the prompt of Exit or SessionLogout always ends up "yes" or "no", and "yes" or "no" is kept as it is |
| LoadMenu.OptionTextReplacedIff | source/load_menu.c:488-521 | the text is replaced exactly when the option only takes "yes" or "no" and the text is neither |
| LoadMenu.WithinIff | source/load_menu.c:206-209 | one ID list lies within another exactly when every ID of it is in the other |
| LoadMenu.RegisterKeepsValid | source/load_menu.c:199-215 | the ID checks keep the registry of menu IDs free of duplicates, with every toplevel ID in it |
| LoadMenu.MenuLoader.constructor | source/load_menu.c:890-904 | the loader starts at depth 1 in the menus stage with empty lists and flags off |
| LoadMenu.MenuLoader.StartElement | source/load_menu.c:84-444 | after the root menu, and for `openbox_menu`, nothing changes; otherwise the error is the first failing check, an error changes nothing, and an accepted element prepends its row and records its depth and type |
| LoadMenu.MenuLoader.Accept | source/load_menu.c:400-443 | the accepted row is prepended with its depth, the stage, action, conversion flag and maximum depth are updated and the depth counter goes up |
| LoadMenu.MenuLoader.EndElement | source/load_menu.c:452-466 | after the root menu nothing changes; otherwise the depth goes down and the root menu is finished when its stage returns to depth 1 |
| LoadMenu.MenuLoader.ElementText | source/load_menu.c:474-522 | non-blank text sets the value of the last started row exactly when it is an option, replaced as the yes/no rule demands; the correction flag is raised exactly when it was replaced |
| LoadMenu.LoadChangeDoneAsWritten | source/load_menu.c:1206-1233 | as written, the change flag after loading can only be raised by the notice about converted `execute` options |
| LoadMenu.CorrectionLost | source/load_menu.c:515-521 | as written, a replaced "maybe" of an `enabled` option does not mark the menu as changed |
| LoadMenu.LoadChangeDone | source/load_menu.c:1206-1233 | a replaced yes/no value always marks the loaded menu as changed, so does the reported conversion of `execute` options, and nothing else raises the flag |
| LoadMenu.ReplacedValueMarksChange | source/load_menu.c:515-521 | with the intended flag, a replaced yes/no value always marks the menu as changed |
| LoadMenu.ClassifyRow | source/load_menu.c:530-623 | only the visibility changes; actions and options are left alone; every other row gets a class, "descendant of an invisible unintegrated menu" exactly below such a toplevel row |
| LoadMenu.InferBelow | source/load_menu.c:530-623 | classifying the rows below a toplevel row keeps their number |
| LoadMenu.Infer | source/load_menu.c:530-623 | the inference keeps the number of toplevel rows |
| LoadMenu.InferBelowClassifies | source/load_menu.c:530-623 | below a toplevel row every menu, pipe menu, item and separator gets a class |
| LoadMenu.InferClassifies | source/load_menu.c:530-623 | after inference every menu, pipe menu, item and separator has a class |
| LoadMenu.ClassifyRowIdempotent | source/load_menu.c:530-623 | classifying a row twice is classifying it once |
| LoadMenu.InferBelowIdempotent | source/load_menu.c:530-623 | classifying the rows below a toplevel row twice changes nothing more |
| LoadMenu.InferIdempotent | source/load_menu.c:530-623 | running the inference a second time changes nothing |
| LoadMenu.InferBelowIndex | source/load_menu.c:530-623 | the `i`-th row below is classified with the toplevel visibility and whether an ancestor is invisible |
| LoadMenu.InferIndex | source/load_menu.c:530-623 | a toplevel row is classified with its own visibility and no ancestor |
| LoadMenu.InferBelowPaths | source/load_menu.c:530-623 | the inference changes no path |
| LoadMenu.ClassifyChild | source/load_menu.c:530-623 | a child is classified with the toplevel row's and its ancestors' inferred visibilities |
| LoadMenu.InferBelowAt | source/load_menu.c:530-623 | below a row, every row gets its inferred visibility and nothing else changes |
| LoadMenu.InferAt | source/load_menu.c:530-623 | row by row, the forest keeps its shape and every row keeps every column but the visibility, which is the one inferred for its place |
| LoadMenu.Referenced | source/load_menu.c:1023-1029 | a referenced toplevel menu is "visible" with a label and "invisible menu" without, and nothing else changes |
| LoadMenu.FirstWithId | source/load_menu.c:1021-1036 | the position found is the first toplevel row with the ID |
| LoadMenu.MarkAll | source/load_menu.c:1017-1040 | marking keeps the number of toplevel rows |
| LoadMenu.FoundIds | source/load_menu.c:1017-1040 | every found ID is referenced and carried by a toplevel row |
| LoadMenu.MarkReferencedMenus | source/load_menu.c:1017-1040 | the first loop marks every referenced toplevel menu and collects the found IDs in root-menu order |
| LoadMenu.FindMenu | source/load_menu.c:1021-1036 | the inner loop stops at the first row with the ID, or at the end exactly when there is none |
| LoadMenu.SameIdsAsMarked | source/load_menu.c:1017-1040 | marking keeps every row's menu ID |
| LoadMenu.SameFirstWithId | source/load_menu.c:1021-1036 | rows with the same IDs have the same first row with an ID |
| LoadMenu.MarkStep | source/load_menu.c:1017-1040 | one turn of the first loop marks the first row of one more reference and adds its ID |
| LoadMenu.Kept | source/load_menu.c:1047-1062 | the rows with a visibility from a position on |
| LoadMenu.MoveStepNullTail | source/load_menu.c:1049-1055 | a row without a visibility, marked, joins the unintegrated rows at the bottom |
| LoadMenu.MoveStepNullMiddle | source/load_menu.c:1049-1055 | the rows in between stay the same up to order |
| LoadMenu.RotateOne | source/load_menu.c:1049-1055 | a swap to the bottom keeps the rows in between |
| LoadMenu.MoveStepKept | source/load_menu.c:1047-1062 | a row with a visibility stays among the kept rows |
| LoadMenu.MoveUnintegrated | source/load_menu.c:1047-1062 | the second loop leaves the rows with a visibility on top in some order and the others below, marked "invisible unintegrated menu", in their original order |
| LoadMenu.SwapKeepsRows | source/load_menu.c:1071-1087 | a swap above the bound keeps the rows above and below it |
| LoadMenu.SwapKeepsPresent | source/load_menu.c:1071-1087 | after a swap the remaining IDs are still present further down |
| LoadMenu.InPlaceKeepsPresent | source/load_menu.c:1070 | a row already in place leaves the remaining IDs present |
| LoadMenu.SortByRootOrder | source/load_menu.c:1065-1091 | the third loop permutes the kept rows so that row `x` carries the `x`-th ID of the root menu, and keeps the rows below |
| LoadMenu.FindRow | source/load_menu.c:1071-1082 | the inner loop finds the first row from the given position on that carries the wanted ID |
| LoadMenu.KeptHas | source/load_menu.c:1047-1062 | a row with a visibility is kept |
| LoadMenu.KeptFrom | source/load_menu.c:1047-1062 | every kept row is a row with a visibility |
| LoadMenu.KeptUpdate | source/load_menu.c:1047-1062 | giving a row a visibility adds one kept row |
| LoadMenu.MarkedCount | source/load_menu.c:1017-1062 | exactly one row per found ID is kept |
| LoadMenu.MarkLast | source/load_menu.c:1017-1040 | one more new reference marks its first row in addition, if any |
| LoadMenu.KeptNone | source/load_menu.c:1047-1062 | no row is kept before marking |
| LoadMenu.KeptIsMarked | source/load_menu.c:1017-1062 | every kept row is a referenced toplevel menu |
| LoadMenu.FoundIdsDistinct | source/load_menu.c:1017-1040 | distinct references give distinct found IDs |
| LoadMenu.FoundArePresent | source/load_menu.c:1047-1091 | before the third loop every found ID is carried by a kept row |
| LoadMenu.OrderedAreReferenced | source/load_menu.c:1065-1091 | after the third loop the first rows are the referenced menus in root-menu order |
| LoadMenu.IntegrateToplevel | source/load_menu.c:1000-1091 | the referenced toplevel menus come first in root-menu order, marked "visible" or "invisible menu", then the others in their order, marked "invisible unintegrated menu" |
| LoadMenu.IntegratedEmpty | source/load_menu.c:1003 | without toplevel rows there is nothing to integrate |
| LoadMenu.AppendBelow | source/load_menu.c:1142-1160 | appending below a toplevel row changes only that row's children |
| LoadMenu.AppendBelowLast | source/load_menu.c:1142-1160 | below the last toplevel row, appending is the pre-order rebuild's append |
| LoadMenu.InsertAt | source/load_menu.c:1145-1147 | an insert at a position puts the row there, or at the end when the position is past it |
| LoadMenu.CopyIcon | source/load_menu.c:1114-1128 | giving a reference's icon to its menu keeps the number of toplevel rows |
| LoadMenu.RootStep | source/load_menu.c:1101-1168 | one row of the root stage keeps the current row valid |
| LoadMenu.RootFold | source/load_menu.c:998-1172 | the root stage keeps the current row valid |
| LoadMenu.Integration | source/load_menu.c:999-1096 | the state when the root menu starts keeps the current row valid |
| LoadMenu.FirstRoot | source/load_menu.c:999 | the position found is the first row with the root menu's ID |
| LoadMenu.RootFoldNext | source/load_menu.c:998-1172 | one more row of the root stage is skipped when it carries the root menu's ID and folded otherwise |
| LoadMenu.CopyIconSame | source/load_menu.c:1114-1128 | giving an icon changes nothing but icons |
| LoadMenu.SameButIconsTail | source/load_menu.c:1114-1128 | rows equal but for icons stay so in their tails |
| LoadMenu.InsertKeepsTail | source/load_menu.c:1145-1147 | an insert in front of the last rows keeps them |
| LoadMenu.AppendKeepsTail | source/load_menu.c:1142-1160 | an append below a row in front of the last rows keeps them |
| LoadMenu.TailStepToplevel | source/load_menu.c:1104-1142 | a row at the root menu's toplevel is inserted in front of the unintegrated menus, or skipped |
| LoadMenu.TailStepBelow | source/load_menu.c:1104-1160 | a row below it is appended in front of the unintegrated menus, or not added |
| LoadMenu.RootFoldPrefix | source/load_menu.c:998-1172 | the root stage over one more row |
| LoadMenu.RootTailKept | source/load_menu.c:1096-1142 | the root stage keeps the unintegrated menus last, in their order, icons aside |
| LoadMenu.LoadRow | source/load_menu.c:1101-1168 | one row is added as the root stage or, before it, the pre-order rebuild adds it |
| LoadMenu.LoadedWithRoot | source/load_menu.c:998-1172 | with a root menu, the tree is the rebuild before it, integrated, then the root stage |
| LoadMenu.LoadedWithoutRoot | source/load_menu.c:998-1172 | without a root menu, the tree is the pre-order rebuild of all rows |
| LoadMenu.BuildTree | source/load_menu.c:956-1172 | the tree built from the accepted rows is the loaded tree with the visibility classes inferred, and every menu, pipe menu, item and separator has a class |
| LoadMenu.LoadRows | source/load_menu.c:995-1172 | the rows put into the tree one by one give the loaded tree: the rebuild before the root menu, integrated when it starts, then the root stage |
| LoadMenu.LoadBeforeRoot | source/load_menu.c:995-1172 | the rows before the first row with the root menu's ID are appended as the pre-order rebuild appends them, and none of them has that ID |
| LoadMenu.LoadRootStage | source/load_menu.c:1101-1168 | the rows after the root menu's own row give the root stage's fold over them |
| SaveMenu.Escape | source/save_menu.c:337-349 | escaping never shortens a text |
| SaveMenu.UnescapeEscape | source/save_menu.c:337-349 | an escaped field value reads back, through the XML entities, as the value the row holds |
| SaveMenu.EscapeIsQuoteFree | source/save_menu.c:337-349 | an escaped value holds no quote and no angle bracket, so it cannot end an attribute or a tag |
| SaveMenu.EscapePlain | source/save_menu.c:337-349 | a value without special characters is written unchanged |
| SaveMenu.EscapeOpt | source/save_menu.c:342-348 | a NULL field stays NULL and a set field stays set |
| SaveMenu.EscapedRow | source/save_menu.c:337-349 | escaping the text fields keeps the type of the row |
| SaveMenu.ParseRenderAttrs | source/save_menu.c:279-329 | the attributes written for a tag are read back by an XML reader as the same names and values, in order |
| SaveMenu.ParseRender | source/save_menu.c:279-329 | every tag `write_tag` writes with escaped values is read back as the same tag |
| SaveMenu.Walk | source/save_menu.c:418-430 | the walk visits every row below the processed one, the first of them first with its escaped fields and its depth |
| SaveMenu.RowText | source/save_menu.c:384-401 | every row's line after its indentation starts a tag |
| SaveMenu.Indent | source/save_menu.c:378-382 | `n` indentation units are `2n` characters |
| SaveMenu.RowIndentation | source/save_menu.c:378-382 | a row at depth `d` is indented by `d - offset + 1` units, the offset being 1 in the menus stage and 0 in the root stage |
| SaveMenu.MenuCloses | source/save_menu.c:252-262 | one `</menu>` line for each depth from the deepest open menu down to the target depth |
| SaveMenu.StepsNext | source/save_menu.c:358-410 | each row of the walk adds the closing tags that precede it and then its own line |
| SaveMenu.WrittenAfter | source/save_menu.c:418-430 | after the last row, `closing_tags` closes what is still open |
| SaveMenu.WalkDepths | source/save_menu.c:418-430 | every row of the walk lies at least at the starting depth |
| SaveMenu.Spaces | source/save_menu.c:378-382 | the counting loop writes the number of units the counters give |
| SaveMenu.MenuWriter.constructor | source/save_menu.c:485-489 | the writer starts empty, in the menus stage, with previous depth 0 |
| SaveMenu.MenuWriter.ClosingTags | source/save_menu.c:60-271 | `closing_tags` appends `</startupnotify>`, `</action>`, `</item>` and `</menu>` lines as the closing-line function gives them |
| SaveMenu.MenuWriter.CloseStartupnotify | source/save_menu.c:120-130 | `</startupnotify>` is written exactly when the walk leaves a startupnotify block |
| SaveMenu.MenuWriter.CloseAction | source/save_menu.c:132-146 | `</action>` is written when the walk leaves an action's options, and the subtraction is 1, 2, 0 or -1 as the previous row requires |
| SaveMenu.MenuWriter.CloseItem | source/save_menu.c:148-174 | `</item>` is written when the walk leaves an item |
| SaveMenu.MenuWriter.CloseMenus | source/save_menu.c:176-263 | in the menus stage, the missing `</menu>` lines are written when the walk climbs to menu level |
| SaveMenu.MenuWriter.WriteMenuCloses | source/save_menu.c:252-262 | the loop writes one `</menu>` per open depth |
| SaveMenu.MenuWriter.ProcessIteration | source/save_menu.c:358-410 | closing tags only when the walk climbs, then the row's line; the row becomes the previous one |
| SaveMenu.MenuWriter.ProcessMenuOrItem | source/save_menu.c:418-430 | every row below the processed one is written in pre-order, then the closing tags of the end, and the depth counter is reset |
| SaveMenu.MenuWriter.ProcessWalk | source/save_menu.c:418-430 | writing a walk row by row yields exactly the written form of the walk |
| SaveMenu.MenuWriter.ProcessStep | source/save_menu.c:358-410 | one turn of the walk extends the output by that row's closing tags and line |
| SaveMenu.MenuWriter.WriteMenuDefinitions | source/save_menu.c:494-511 | the first loop writes the definition of every toplevel menu and unintegrated pipe menu, in order |
| SaveMenu.MenuWriter.WriteRootEntries | source/save_menu.c:516-536 | the second loop writes the root menu's entries, in order |
| SaveMenu.MenuWriter.WriteMenuDefinition | source/save_menu.c:497-506 | a toplevel menu definition is its tag, its subrows and `</menu>` when it has children |
| SaveMenu.MenuWriter.WriteRootEntry | source/save_menu.c:520-530 | a toplevel row of the root menu is a menu reference, or an item or separator with its subrows |
| SaveMenu.WriteMenu | source/save_menu.c:480-538 | the file is the header, the menu definitions, the root menu with its entries, and the footer |
| SaveStructure.Closers | source/save_menu.c:60-271 | one closing line per open row between the two depths |
| SaveStructure.ChainMenus | source/save_menu.c:176-263 | an open menu below the processed row only occurs in the menus stage, inside menus only |
| SaveStructure.ChainItem | source/save_menu.c:148-174 | an open item is the processed row in the root stage, or lies inside menus only |
| SaveStructure.ChainGrows | source/save_menu.c:358-410 | opening a row that its parent may hold keeps the open rows a valid chain |
| SaveStructure.MenuClosesPeel | source/save_menu.c:252-262 | `closing_tags`'s loop writes the deepest `</menu>` first |
| SaveStructure.ClosersMenus | source/save_menu.c:252-262 | closing open menus is what `closing_tags`'s `</menu>` loop writes |
| SaveStructure.OptionNamePlain | source/save_menu.c:337-349 | escaping keeps the names of options |
| SaveStructure.FitsEscaped | source/save_menu.c:337-349 | the escaped rows fit wherever the rows of the tree fit |
| SaveStructure.OptionNamesDistinct | source/save_menu.c:132-135 | the options of an action and of a startupnotify block are told apart by name |
| SaveStructure.MenuLinesAre | source/save_menu.c:244-262 | the `</menu>` lines when the walk returns to menu level or ends |
| SaveStructure.ClosingAfterMenuLevel | source/save_menu.c:148-150 | after a menu, pipe menu, item or separator without children only menus are closed |
| SaveStructure.ClosingAfterAction | source/save_menu.c:144-174 | after an action without options its item, one level up, is closed |
| SaveStructure.ClosingAfterOption | source/save_menu.c:132-174 | after an option of an action the action is closed, and its item too when the walk returns to menu level |
| SaveStructure.ClosingAfterSuboption | source/save_menu.c:120-174 | after a startupnotify option the block is closed, then the action and the item as the next row requires |
| SaveStructure.ClosersBelowItem | source/save_menu.c:176-263 | the open rows around an open item are menus in the menus stage and none in the root stage |
| SaveStructure.ClosersPeelTwo | source/save_menu.c:132-174 | the closing lines of an action and its item |
| SaveStructure.ClosersPeelThree | source/save_menu.c:120-174 | the closing lines of a startupnotify block, its action and its item |
| SaveStructure.LeafTransition | source/save_menu.c:60-271 | after a row without children `closing_tags` closes exactly the open rows the next row is not inside of, deepest first |
| SaveStructure.LeafInMenu | source/save_menu.c:148-263 | the same after a menu, pipe menu, item or separator without children |
| SaveStructure.LeafInItem | source/save_menu.c:144-263 | the same after an action without options |
| SaveStructure.LeafInAction | source/save_menu.c:132-263 | the same after an option of an action or an empty startupnotify block |
| SaveStructure.OptionBelowItem | source/save_menu.c:132-263 | the same after an option of an action followed by a row at menu level or the end |
| SaveStructure.LeafInOptionBlock | source/save_menu.c:120-263 | the same after an option of a startupnotify block |
| SaveStructure.SuboptionBelowItem | source/save_menu.c:120-263 | the same after a startupnotify option followed by a row at menu level or the end |
| SaveStructure.StepsSnoc | source/save_menu.c:358-410 | one more row adds the closing lines before it and its line |
| SaveStructure.StepsAppend | source/save_menu.c:358-410 | the lines of a walk are written row after row |
| SaveStructure.EmittedOne | source/save_menu.c:358-410 | a single row is its line, then the closing lines after it |
| SaveStructure.EmittedAppend | source/save_menu.c:358-410 | the lines of two runs of rows are those of the first, then those of the second |
| SaveStructure.FitsEncloses | source/save_menu.c:384-401 | a row that holds others and fits below an open row extends the open rows |
| SaveStructure.RunAppend | source/save_menu.c:358-410 | row lines with gaps split at any row |
| SaveStructure.RunNested | source/save_menu.c:418-430 | a well-formed forest comes out in nested form, each row's closing tag after its children, then the open rows the next row is not inside of are closed |
| SaveStructure.Siblings | source/save_menu.c:418-430 | the siblings of the first row are well formed and what follows the first row can follow it |
| SaveStructure.Grow | source/save_menu.c:358-410 | opening a row keeps the rows that could follow possible, and climbing out closes it first |
| SaveStructure.LeafCons | source/save_menu.c:418-430 | a first row without children is visited, then its siblings |
| SaveStructure.ParentCons | source/save_menu.c:418-430 | a first row with children is visited, then the rows below it, then its siblings |
| SaveStructure.RunLeaf | source/save_menu.c:418-430 | the nested form for a forest whose first row has no children |
| SaveStructure.RunParent | source/save_menu.c:418-430 | the nested form for a forest whose first row has children |
| SaveStructure.ParentSetting | source/save_menu.c:418-430 | below a row with children the open rows grow by that row, and its closing tag comes before its siblings |
| SaveStructure.LeafSteps | source/save_menu.c:358-410 | a row without children is its line, then what follows it |
| SaveStructure.ParentSteps | source/save_menu.c:358-410 | a row with children is its line, the lines below it and its closing tag, then what follows it |
| SaveStructure.TransitionDescends | source/save_menu.c:367-368 | nothing is closed before a row at the same depth or deeper |
| SaveStructure.TransitionClosesLeaves | source/save_menu.c:60-271 | after every row without children, `closing_tags` closes exactly the open rows the next row is not inside of |
| SaveStructure.EmittedIsRun | source/save_menu.c:358-410 | the lines written for a walk are its row lines with `closing_tags`'s lines between them |
| SaveStructure.WalkNested | source/save_menu.c:418-430 | the lines for a well-formed forest are its nested form followed by the closing tags still needed |
| SaveStructure.WrittenEmitted | source/save_menu.c:418-430 | the whole walk is followed by the end |
| SaveStructure.MenusNested | source/save_menu.c:497-505 | the lines below a menu defined in the menus stage are the properly nested form of its subrows, every opened tag closed in order |
| SaveStructure.RootNested | source/save_menu.c:525-529 | the lines below an item of the root menu are the nested form of its actions, then the item's `</item>` |
| Editing.Rank | source/kickshaw.c:46-50 | the rank of a child is the index of its element among the options in canonical order, and the number of options for anything else |
| Editing.Swap | source/editing.c:118 | swapping two children exchanges exactly those two and keeps the multiset of children |
| Editing.FirstWith | source/editing.c:111-125 | the first child from the given position on whose element is the option, or none when no later child is |
| Editing.PlaceLowestMin | source/editing.c:105-128 | one pass of the outer loop keeps the children before the position, permutes those from it on, and puts there a child of lowest rank among them |
| Editing.SelectionFromSorted | source/editing.c:102-132 | the passes from a sorted prefix on leave all children in rank order |
| Editing.SortedOptionsSorted | source/editing.c:93-133 | the sorted children are in canonical order: prompt, command, startupnotify under Execute; enabled, name, wmclass, icon in a startupnotify block |
| Editing.SortExecuteOrStartupnotifyOptions | source/editing.c:93-133 | the loops give the specified order, a permutation of the children that is rank-sorted |
| Editing.PlaceOption | source/editing.c:105-128 | the middle loop equals one pass at the position |
| Editing.PlaceLowestStep | source/editing.c:106-125 | trying an option stops the pass when the child is that option, swaps in the first later child that is, and otherwise goes on with the next option |
| Editing.SwapInFirst | source/editing.c:111-125 | the inner loop swaps exactly when some later child is the option, and with the first such child |
| Editing.SortAfterInsertion | source/editing.c:61-83 | after sorting, the first child that is the inserted option is selected; without one the last child is |
| Editing.SortNode | source/editing.c:142-166 | the walk keeps each row and its number of children |
| Editing.SortKids | source/editing.c:142-166 | the walk keeps the rows of the children in their (possibly sorted) order |
| Editing.SortLoopAfterSortingActivation | source/editing.c:142-166 | the walk over the whole tree leaves every Execute action and option block below the toplevel sorted and keeps the menu IDs |
| Editing.SortLoopNode | source/editing.c:142-166 | the walk of one row equals its specification |
| Editing.SortLoopKids | source/editing.c:142-166 | the walk over the children equals its specification |
| Editing.SortNodeSorted | source/editing.c:144-160 | a row whose children the walk sorts has them in rank order, its subtree is sorted and its menu IDs are kept |
| Editing.SortKidsSorted | source/editing.c:142-166 | the walked children are sorted throughout and keep their menu IDs |
| Editing.SortForestSorted | source/editing.c:142-166 | the walked forest is sorted throughout |
| Editing.SortForestIds | source/editing.c:142-166 | the walk keeps the multiset of menu IDs |
| Editing.MoveSelection | source/editing.c:187-206 | the moved row is at its new position (neighbour for up and down, first or last for top and bottom), the others keep their order, and the siblings are a permutation |
| Editing.MoveSelectionUnique | source/editing.c:187-206 | these two promises determine the result |
| Editing.MoveRow | source/editing.c:187-210 | the row moves among its siblings only, keeps its subtree, and the menu IDs of the tree are kept |
| Editing.LabelIfUnlabelled | source/editing.c:259-260 | an unlabelled menu, pipe menu or item gets "(Newly created label)"; nothing else changes |
| Editing.AdjustRow | source/editing.c:219-282 | only label and visibility change; a label is only ever added; a row without a visibility keeps none |
| Editing.AdjustNode | source/editing.c:219-282 | the walk keeps type, menu ID and the shape of the subtree |
| Editing.VisualiseOne | source/editing.c:303-322 | only the selected row's toplevel subtree changes, and its shape is kept |
| Editing.VisualiseAll | source/editing.c:302-323 | visualising keeps the menu IDs of the tree |
| Editing.VisualiseMenusItemsAndSeparators | source/editing.c:290-333 | the loop over the selected rows equals visualising them one after the other |
| Editing.LineRowVisible | source/editing.c:255-261 | a row on the selected line becomes visible and labelled |
| Editing.VisualisedLine | source/editing.c:303-322 | the toplevel row, the selected row and every ancestor in between become visible and labelled |
| Editing.DescendantsVisible | source/editing.c:263-274 | under recursive visualisation, with no invisible ancestor seen, every row below the selected line with a visibility becomes visible and labelled |
| Editing.VisualisedRecursively | source/editing.c:243-274 | recursive visualisation makes every row below the selected row that has a visibility visible and labelled |
| Editing.UnvisualisedInvisible | source/editing.c:263-274 | an unlabelled row neither on the line nor visualised with it stays unlabelled and invisible |
| Editing.UnlabelledStayInvisible | source/editing.c:243-274 | unlabelled rows off the selected line (outside its subtree when recursive) stay invisible |
| Editing.RemoveIcons | source/editing.c:464-491 | every selected row loses its icon, the other rows and the menu IDs are unchanged |
| Editing.ClearIcon | source/editing.c:473-478 | one step clears the icon of one more row and keeps the rest |
| Editing.WithCell | source/editing.c:590 | the edited cell takes the new text and the other cells, type, icon and visibility are kept |
| Editing.CellEdited | source/editing.c:554-600 | nothing happens for a missing row or an unchanged text; an empty label is refused unless a single separator is selected; a duplicate menu ID is refused; otherwise exactly the row at the path changes |
| Editing.CellEditedKeepsRegistry | source/editing.c:582-590 | after a cell edit the registry still holds exactly the menu IDs of the tree |
| Editing.CellEditedChanged | source/editing.c:573-590 | a successful edit writes the cell and, for the menu ID column, replaces the old ID by the new one at the head of the registry |
| Editing.CellEditedKeepsDistinct | source/editing.c:582-589 | a cell edit never puts an ID into the registry twice |
| Editing.ChangeRow | source/editing.c:499-546 | an empty label is refused exactly for non-separators with a visibility; a duplicate menu ID is refused exactly after the label was set; only the row at the path changes |
| Editing.ChangedRow | source/editing.c:499-546 | the row at the path is replaced and every other row is kept |
| Editing.ChangeRowKeepsRegistry | source/editing.c:512-521 | the registry still holds exactly the menu IDs of the tree, also after a refused duplicate |
| Editing.ChangeRowKeepsDistinct | source/editing.c:512-521 | the registry never holds an ID twice |
| Editing.ChangeRowResult | source/editing.c:505-538 | a successful change keeps type and visibility, gives a labelled row the entered label, a menu the entered ID, an option the entered value |
| Editing.BooleanToggled | source/editing.c:632-636 | only the value changes; it becomes "yes" or "no", and the toggle state flips |
| Editing.BooleanToggledTwice | source/editing.c:632-636 | toggling a yes/no value twice gives back the tree |
| AddingAndDeleting.TypeOfNew | source/adding_and_deleting.c:127-142 | a new row is a menu, pipe menu, item or separator exactly for those names and an option for every option name |
| AddingAndDeleting.LabelOfNew | source/adding_and_deleting.c:123-126 | a separator gets no label, a menu, pipe menu or item "New " followed by its type, an option its own name |
| AddingAndDeleting.ValueOfNew | source/adding_and_deleting.c:141-149 | "no" exactly for enabled, "yes" exactly for another option below Exit or SessionLogout, no value for menu-level rows |
| AddingAndDeleting.VisibilityOfNew | source/adding_and_deleting.c:175-190 | "visible" exactly without a selection or an invisible ancestor; a descendant of an invisible menu exactly below a row whose class ends in "invisible menu" |
| AddingAndDeleting.VisibilityOfNewHighlight | source/adding_and_deleting.c:179-184 | a new row below an invisible or unintegrated menu is highlighted like its ancestor |
| AddingAndDeleting.Placement | source/adding_and_deleting.c:104-116 | the new row goes into the toplevel without a selection, into the selected row when it is appended, and after it otherwise, always at a valid place |
| AddingAndDeleting.AddNew | source/adding_and_deleting.c:57-220 | nothing changes exactly when the question was cancelled; otherwise one new row with the given fields is added where `Placement` says, its ID (the first free "New menu N") joins the registry, and the registry keeps distinct IDs |
| AddingAndDeleting.PlaceNewRow | source/adding_and_deleting.c:158-214 | the row is inserted at the place, adds exactly its IDs to the tree, sees the invisible ancestor of its place, and with autosorting the siblings end up rank-sorted |
| AddingAndDeleting.NewRow | source/adding_and_deleting.c:119-149 | the new row has the type, label, value, ID and visibility `add_new` gives; the registry gains exactly its ID and stays distinct |
| Registry.FreshMenuId | source/adding_and_deleting.c:131-138 | the numbering loop gives "New menu n" for the least n of at least 1 whose ID is not in the registry |
| Registry.RemoveMenuId | source/adding_and_deleting.c:923-929 | the first entry equal to the ID is dropped and the rest kept in order (multiset minus one, length minus one); the ID must be present because the search result is dereferenced unchecked |
| AddingAndDeleting.ChildAncestor | source/kickshaw.c:1136-1165 | a new child's nearest invisible ancestor is that of its place |
| AddingAndDeleting.CheckForMenus | source/adding_and_deleting.c:896-915 | the ID of a menu or pipe menu leaves the registry; other rows leave it alone |
| AddingAndDeleting.CheckForMenusAt | source/adding_and_deleting.c:1023-1024 | during the walk, the IDs of the visited rows are gone and those to come are still there |
| AddingAndDeleting.RemoveIdsBelow | source/adding_and_deleting.c:1020-1025 | the walk below a removed menu takes exactly the IDs below it out of the registry |
| AddingAndDeleting.KeepEarlier | source/adding_and_deleting.c:995-996 | removing bottom to top keeps every earlier selected path on its row |
| AddingAndDeleting.Pruned | source/adding_and_deleting.c:1007-1033 | every selected path not yet removed still addresses the row it addressed at the start |
| AddingAndDeleting.RemoveRow | source/adding_and_deleting.c:1008-1032 | the row goes with its subtree; unless the origin is "dnd" the registry keeps matching the tree; for "dnd" it is untouched |
| AddingAndDeleting.RemoveRows | source/adding_and_deleting.c:990-1049 | the selected rows are removed bottom to top; the registry matches the tree except after a drag and drop, which keeps it; the find grid stays shown exactly when it was and rows are left |
| AddingAndDeleting.ChildrenOfSelected | source/adding_and_deleting.c:956-967 | exactly the children of selected rows are selected, in walk order |
| AddingAndDeleting.RemoveAllChildren | source/adding_and_deleting.c:941-982 | exactly the children of the selected rows are removed with their subtrees; the registry keeps matching the tree; the find grid is hidden when no row is left |
| ActionOptions.MissingFromIff | source/adding_and_deleting.c:279-286 | a text is offered exactly when it is the displayed text of an option no child has |
| ActionOptions.OptionsParent | source/adding_and_deleting.c:272-275 | the options are looked up in the selected row when it is Execute (or startupnotify), otherwise in its parent |
| ActionOptions.GenerateComboContentForExecuteAndStartupnotifyOpts | source/adding_and_deleting.c:263-290 | the items appended are the displayed texts of exactly the missing options, in canonical order |
| ActionOptions.AppendMissing | source/adding_and_deleting.c:279-286 | the loop appends the text of every option whose flag is down |
| ActionOptions.CheckMandatoryFields | source/adding_and_deleting.c:659-681 | the insertion is refused exactly when the command, the prompt (not for Exit or SessionLogout) or the chosen startupnotify entry is empty |
| ActionOptions.NoMandatoryField | source/adding_and_deleting.c:663-680 | other actions, the startupnotify block and "enabled" are never refused |
| ActionOptions.InsertIndex | source/adding_and_deleting.c:717 | a position within the children is kept, and a negative or too large position appends |
| ActionOptions.InsertionRightAfter | source/adding_and_deleting.c:683-700 | a row placed next to the selection lands right after it, whether or not a position was computed |
| ActionOptions.InsertEachAppends | source/adding_and_deleting.c:728 | rows inserted at -1 end up after the children, in order |
| ActionOptions.InsertEachMultiset | source/adding_and_deleting.c:753-795 | whatever the position, the rows inserted are exactly the old children and the new ones |
| ActionOptions.SuboptionsFromSorted | source/adding_and_deleting.c:785-801 | the startupnotify options are inserted in canonical order |
| ActionOptions.SuboptionsFromIff | source/adding_and_deleting.c:785-788 | an option is inserted exactly when it is "enabled" at the start of the loop, the chosen one, or its entry holds text |
| ActionOptions.InsertSuboptions | source/adding_and_deleting.c:785-801 | the loop over the startupnotify options equals its specification |
| ActionOptions.InsertExecuteOptions | source/adding_and_deleting.c:746-769 | the loop over the Execute options equals its specification |
| ActionOptions.ExecuteActionShape | source/adding_and_deleting.c:711-801 | a new Execute action has a command, a prompt exactly when one was entered, a startupnotify block exactly when its button is set, all in canonical order, the block starting with "enabled" |
| ActionOptions.ExecuteActionAsWrittenWhenChecked | source/adding_and_deleting.c:743-799 | with the startupnotify button set, the code as written builds the intended Execute action |
| ActionOptions.ExecuteNameUnderCommand | source/adding_and_deleting.c:771-799 | with the button cleared but a name left in its entry, the code as written hangs a "name" option under "command" |
| ActionOptions.StartupnotifyBlockShape | source/adding_and_deleting.c:743-799 | a new startupnotify block holds "enabled" first and then exactly the options whose entry holds text, in canonical order |
| ActionOptions.StartupnotifyBlockAsWrittenWhenAppended | source/adding_and_deleting.c:785-795 | where the block is appended, the code as written builds the intended block |
| ActionOptions.StartupnotifyOptionsOutOfOrder | source/adding_and_deleting.c:693-695 | the block's options inserted at the block's own position come out as enabled, wmclass, name |
| ActionOptions.Target | source/adding_and_deleting.c:683-700 | the new row goes at the end of the selected row or right after it, always at a valid place |
| ActionOptions.SuboptionIndex | source/adding_and_deleting.c:673-674 | the index of a displayed startupnotify text is that of its option |
| ActionOptions.ExecuteOptionName | source/adding_and_deleting.c:754-755 | the displayed text of an Execute option names one of prompt, command, startupnotify |
| ActionOptions.OfferedConsistent | source/adding_and_deleting.c:326-353 | every offered choice fits the selected row |
| ActionOptions.OfferedNewAction | source/adding_and_deleting.c:326-332 | actions are offered only for an item or an action |
| ActionOptions.OfferedExecuteOption | source/adding_and_deleting.c:335-338 | an offered Execute option goes into an Execute action that lacks it |
| ActionOptions.OfferedStartupnotifyOption | source/adding_and_deleting.c:341-343 | an offered startupnotify option goes into a startupnotify block that lacks it |
| ActionOptions.UsedOnlyChosen | source/adding_and_deleting.c:785-788 | with a startupnotify option chosen, only that option is inserted after "enabled" |
| ActionOptions.SuboptionsForOption | source/adding_and_deleting.c:780-801 | choosing a startupnotify option inserts exactly that one option |
| ActionOptions.BuildInsertedRow | source/adding_and_deleting.c:710-839 | the two insertion loops build exactly the row the choice stands for |
| ActionOptions.InsertionLoops | source/adding_and_deleting.c:731-801 | the loops insert the Execute options used and the startupnotify options from "enabled" or "name" on |
| ActionOptions.Destination | source/adding_and_deleting.c:683-700 | the parent and position of the insertion are those of `Target` |
| ActionOptions.InsertedRowIds | source/adding_and_deleting.c:710-839 | the new rows hold no menu IDs |
| ActionOptions.ActionOptionInsert | source/adding_and_deleting.c:631-888 | nothing is inserted exactly when a mandatory field is empty; otherwise the row the choice stands for is added at its target, the tree's IDs are unchanged, and with autosorting the new option's siblings are in canonical order |
| ActionOptions.InsertActionOption | source/adding_and_deleting.c:682-887 | once every mandatory field is filled, the row the choice stands for is added at its target, the tree's IDs are unchanged, and with autosorting the new option's siblings are in canonical order |
| DragAndDrop.MotionParent | source/drag_and_drop.c:73-96 | the new parent is the row under the pointer when dropping onto it, otherwise its parent below the toplevel, and none at the toplevel |
| DragAndDrop.FirstViolationIff | source/drag_and_drop.c:98-187 | the drop is refused exactly when some dragged row breaks a rule, and the reported rule is that of the first such row |
| DragAndDrop.FindSameOption | source/drag_and_drop.c:151-166 | the loop finds a child with the dragged option's element exactly when one exists |
| DragAndDrop.CheckDraggedRow | source/drag_and_drop.c:108-175 | one pass makes the checks in the handler's order and reports the first rule broken |
| DragAndDrop.DragMotion | source/drag_and_drop.c:41-202 | the drop is refused exactly when a dragged row breaks a rule, with the first violation as status |
| DragAndDrop.AcceptedDrop | source/drag_and_drop.c:112-175 | after an accepted drop no menu lands in itself, every row type lands under an allowed parent, no option lands twice in an action or block, and Exit or SessionLogout only get a yes/no prompt |
| DragAndDrop.NextPath | source/drag_and_drop.c:374-375 | the next path is the following sibling |
| DragAndDrop.DropPlacement | source/drag_and_drop.c:369-400 | the copies go to the end of the toplevel, to the end of the row dropped onto, or at the row's position (after: the next), appended past the last child |
| DragAndDrop.RootVisibility | source/drag_and_drop.c:424-444 | below an invisible parent a dragged row becomes a descendant of an invisible (unintegrated) menu, as the parent's class says |
| DragAndDrop.CopiedRoot | source/drag_and_drop.c:418-444 | a copy differs from the dragged row at most in its visibility |
| DragAndDrop.DroppedLikeAdded | source/drag_and_drop.c:424-444 | a labelled row dropped into a menu gets the class a new row added there gets |
| DragAndDrop.AdjustSubrow | source/drag_and_drop.c:266-297 | a subrow changes at most its visibility; rows without one keep none; the subtree keeps its shape |
| DragAndDrop.SubrowsOfUnintegrated | source/drag_and_drop.c:285-286 | below a row that became an unintegrated menu or a descendant of one, every subrow with a visibility becomes a descendant of an invisible unintegrated menu |
| DragAndDrop.SubrowsOfInvisible | source/drag_and_drop.c:287-291 | below a row that became an invisible menu or a descendant of one, every subrow with a visibility becomes a descendant of an invisible menu |
| DragAndDrop.Copy | source/drag_and_drop.c:409-524 | a copy keeps the shape and every field but the visibilities |
| DragAndDrop.CopySubrows | source/drag_and_drop.c:475-508 | listing the subrows with their depths and appending each under the last copy one level up rebuilds them exactly |
| DragAndDrop.InsertBlock | source/drag_and_drop.c:447-449 | the copies sit as one block at the placement, between the old children before and after it |
| DragAndDrop.InsertBlockIds | source/drag_and_drop.c:447-449 | inserting the copies adds exactly their menu IDs |
| DragAndDrop.ShiftedNode | source/drag_and_drop.c:472-474 | every row off the parent's line is found unchanged at its shifted path |
| DragAndDrop.ShiftedSources | source/drag_and_drop.c:472-474 | after the copies are in, the dragged rows are at their shifted paths, in order and apart |
| DragAndDrop.PrunedKeepsNodes | source/adding_and_deleting.c:1007-1033 | while the dragged rows are removed bottom to top, those not yet removed are intact |
| DragAndDrop.PrunedIds | source/adding_and_deleting.c:1007-1033 | removing the dragged rows removes exactly their IDs |
| DragAndDrop.Copies | source/drag_and_drop.c:409-531 | the copies are the dragged rows in order, with adjusted visibilities and the same shape |
| DragAndDrop.DroppedKeepsIds | source/drag_and_drop.c:538-540 | a drop moves rows: the tree has the same menu IDs before and after, so the registry is left alone |
| DragAndDrop.AcceptedMenuOutside | source/drag_and_drop.c:112-116 | an accepted dragged menu is neither the new parent nor one of its ancestors |
| DragAndDrop.FindDest | source/drag_and_drop.c:353-367 | the handler stops exactly when the destination is one of the dragged rows |
| DragAndDrop.CopyRow | source/drag_and_drop.c:409-524 | the copy of one dragged row equals its specification |
| DragAndDrop.DragDataReceived | source/drag_and_drop.c:313-540 | nothing changes when the destination is dragged; otherwise the copies are inserted and the dragged rows removed; the registry and the tree's IDs are kept; the find grid stays shown exactly while rows are left |
| DragAndDrop.InsertCopies | source/drag_and_drop.c:409-531 | the loop inserts the copies of all dragged rows as one block at the placement |
| DragAndDrop.InsertCopy | source/drag_and_drop.c:447-474 | one turn inserts the next copy right after the earlier ones |
| DragAndDrop.SortDroppedOptions | source/drag_and_drop.c:545-567 | with autosorting, moved options and more than one sibling, the new parent's children are sorted, otherwise left alone; they stay a permutation |
| DragAndDrop.SortName | source/drag_and_drop.c:386-407 | the intended name is the element of the new parent |
| DragAndDrop.SortNamesAgree | source/drag_and_drop.c:386-400 | the name read as written agrees with the new parent's element unless the rows are dropped onto a row |
| DragAndDrop.OntoExecuteLeftUnsorted | source/drag_and_drop.c:386-400 | rows dropped onto an Execute action are sorted by the startupnotify order, which leaves a command before a prompt |
| DragAndDrop.SortAfterDropAsWritten | source/drag_and_drop.c:545-567 | as written, the children are sorted by the order of the name read at lines 386-400 |
| DragAndDrop.SortAfterDrop | source/drag_and_drop.c:545-567 | options moved into an Execute action end in the Execute order, into an option block in the startupnotify order |
| Selecting.DescendantPaths | source/selecting.c:236-240 | the walk below a row visits exactly its descendants |
| Selecting.SelectedDescendant | source/selecting.c:159-176 | the walk finds a selected row below the given row exactly when one exists |
| Selecting.ScanInvisibleDescendants | source/kickshaw.c:1108-1127 | the walk finds an unlabelled descendant exactly when one exists |
| Selecting.SelectedRows | source/selecting.c:229-234 | the rows read for the fold are the selected rows in order |
| Selecting.SingleSelectionNeverBlocked | source/selecting.c:213 | a single row can always be dragged |
| Selecting.AllowedSelectionDisjoint | source/selecting.c:264-268 | a selection that may be dragged holds no row together with a descendant of it |
| Selecting.CountPositive | source/selecting.c:247-251 | a counter is positive exactly when an earlier selected row is that option |
| Selecting.TwiceStep | source/selecting.c:247-251 | a selected option repeats an earlier one exactly when its counter was already positive |
| Selecting.CountOption | source/selecting.c:247-257 | the counter of the option goes up by one; the flags say whether it repeats and whether it belongs to Execute or startupnotify |
| Selecting.FoldKind | source/selecting.c:241-258 | the kind flags and counters take in one more selected row |
| Selecting.FoldDescendant | source/selecting.c:236-240 | the descendant flag says whether one of the rows so far has a selected descendant |
| Selecting.FoldRow | source/selecting.c:229-262 | one turn of the loop keeps the flags equal to the fold over the rows so far |
| Selecting.CheckDragging | source/selecting.c:213-268 | the flags after the loop are exactly the blocking reasons |
| Selecting.FoldedReasons | source/selecting.c:264-268 | the final flags give the blocking reasons |
| Selecting.BlockMessage | source/selecting.c:269-282 | the status text starts with "Dragging disabled --- " and names a reason exactly when the drag is blocked |
| Selecting.CreateSourcePaths | source/selecting.c:93-108 | prepending then reversing gives the selected paths in their order |
| Selecting.InvisibleDescendantAsWritten | source/selecting.c:319-323 | as written, a raised flag always names a selected invisible row with an unlabelled descendant |
| Selecting.LastSelectedRowDecides | source/kickshaw.c:1108-1127 | as written, two selected invisible menus, the first with an unlabelled item and the last without, leave Visualise recursively off |
| Selecting.VisibilityChecks | source/selecting.c:311-327 | Remove all children, Visualise and the invisible-descendant flag are decided from all selected rows |
| Selecting.NoChildNoUnlabelled | source/selecting.c:319 | a row without children has no unlabelled descendant |
| Selecting.MoveButtonsAsWritten | source/selecting.c:384-399 | as written, up needs a previous and down a next sibling, and the autosort test reads the previously selected row's type |
| Selecting.MoveButtonsFor | source/selecting.c:384-399 | with autosort an option or option block cannot move; otherwise up exactly with a previous sibling and down exactly with a next one |
| Selecting.StaleTypeEnablesMove | source/selecting.c:390-392 | with autosort on, selecting an option after an item offers to move the option up |
| Selecting.FindButtonsFor | source/selecting.c:401-406 | Back only with an occurrence before the row and Forward only with one after it |
| Selecting.FindButtonsIff | source/selecting.c:401-406 | in the ordered list of occurrences, Back exactly with an occurrence before the row and Forward exactly with one after it |
| Selecting.ParentElement | source/selecting.c:376-382 | the element of the parent row, NULL for a toplevel row |
| Selecting.DecideDrag | source/selecting.c:264-292 | dragging is allowed exactly without blocking reasons, and the message lists them |
| Selecting.DecideCommon | source/selecting.c:295-339 | Edit, Remove, Search, Save, Remove all children and both Visualise entries are decided as `row_selected` decides them |
| Selecting.DecideSingle | source/selecting.c:342-406 | the move, find and entry controls follow a single selected row, are off for several and unchanged for none |
| Selecting.DecideControls | source/selecting.c:187-571 | the controls are decided for the selection as a whole |
| Selecting.InvisibleDescendantOfVisualised | source/selecting.c:328-331 | with every selected row invisible, Visualise recursively needs some selected row with an unlabelled descendant |
| Selecting.RowSelected | source/selecting.c:187-571 | the controls are decided, an allowed drag stores the selected rows as sources, the text fields hold a single selected row or are cleared, and the rest of the editor is kept |
| Selecting.ApplySelection | source/selecting.c:291-292 | the sources of an allowed drag and the text fields are stored, and nothing else changes |
| Kickshaw.ToplevelPath | source/kickshaw.c:1065-1072 | the toplevel row of a path is the one at its first index: the row itself or an ancestor |
| Kickshaw.CheckForExistingOptions | source/kickshaw.c:1080-1101 | afterwards each option's flag is raised exactly when it was raised before or some child's element is that option |
| Kickshaw.CheckIfInvisibleAncestorExists | source/kickshaw.c:1136-1165 | the walk up the path returns the visibility of the nearest invisible ancestor, NULL for a toplevel row or when there is none |
| Kickshaw.NearestInvisibleAncestorIff | source/kickshaw.c:1136-1165 | NULL exactly when no ancestor is invisible; otherwise an invisible ancestor's visibility with no invisible ancestor below it |
| Kickshaw.NearestInvisibleAncestorOfLine | source/kickshaw.c:1136-1165 | the answer depends only on the visibilities of the row's ancestors |
| Kickshaw.EditableColumns | source/kickshaw.c:1348-1357 | only menus and pipe menus have an editable menu ID; an unlabelled menu, pipe menu or item has no editable label; type and visibility are never editable |
| Kickshaw.ShownAsToggle | source/kickshaw.c:1245-1256 | the value cell is a toggle only for a "prompt" or "enabled" option: always for the prompt of Exit or SessionLogout and the "enabled" option of a startupnotify block, never for the prompt of Execute |
| Kickshaw.RowHighlight | source/kickshaw.c:1281-1289 | a row is not highlighted exactly when its own visibility is NULL or "visible" and no ancestor is invisible |
| Kickshaw.HighlightOfClasses | source/kickshaw.c:1281-1289 | the unintegrated menu and its descendants are highlighted as unintegrated, the other invisible classes as integrated |
| Kickshaw.ColumnOfViewItem | source/kickshaw.c:1385-1392 | the three column view items show or hide the menu ID, execute and element-visibility columns |
| Find.LowerAll | source/find.c:176-179 | lower-casing keeps the length and maps each character by itself |
| Find.CheckForMatch | source/find.c:165-193 | a NULL cell never matches; a literal, case-sensitive search matches exactly when the term is non-empty and occurs in the cell |
| Find.AddOccurrenceToList | source/find.c:119-133 | the row's path is prepended exactly when some checked column matches, and only once |
| Find.MatchingMembers | source/find.c:152-157 | a path is in the filtered walk exactly when it is in the walk and its row matches |
| Find.MatchingIncreasing | source/find.c:152-157 | filtering a walk in tree order keeps it in tree order |
| Find.OccurrencesExactly | source/find.c:152-157 | the list of occurrences holds exactly the valid paths of matching rows, each once, in tree order |
| Find.CreateListOfRowsWithFoundOccurrences | source/find.c:152-157 | prepending during the walk and reversing at the end yields the matching rows in tree order |
| Find.MatchingStep | source/find.c:152-157 | one more row of the walk puts that row, when it matches, in front of the reversed list |
| Find.JumpToPreviousOrNextOccurrence | source/find.c:283-314 | forward: the first occurrence after the selected row; back: the last one before it |
| Find.ForwardIsNearest | source/find.c:283-314 | in a tree-ordered list the forward jump lands on the nearest occurrence after the selected row |
| Find.BackIsNearest | source/find.c:283-314 | in a tree-ordered list the back jump lands on the nearest occurrence before the selected row |
| Find.RunSearch | source/find.c:231-279 | an empty term or no checked column clears the list; otherwise the list is rebuilt and its first row, if any, becomes the selection |
| Find.SearchSelectsFirstMatch | source/find.c:262-270 | the row a search selects is the first matching row of the tree |
| Globals.TxtFieldsOf | source/selecting.c:54-66 | the text fields hold the selected row's columns, the type as its name; a row of known type never gives the cleared fields |
| Globals.Editor.ClearGlobalStaticData | source/kickshaw.c:1438-1453 | file name, registry and tree are emptied and the change flag reset; a shown find grid is hidden, which resets its entry, buttons and list; text fields, dragged rows and autosort are kept |
| Globals.Editor.ActivateChangeDone | source/kickshaw.c:1639-1654 | the change is recorded; Save is switched on exactly when there is a file; with the find grid shown the occurrences are those of the current tree; the rest of the state is kept |
| Globals.Editor.SetSourcePaths | source/selecting.c:93-108 | the dragged rows are stored and nothing else changes |
| Globals.Editor.SetTxtFields | source/selecting.c:54-66 | the text fields are replaced and nothing else changes |
| Globals.ClearThenChange | source/kickshaw.c:1640-1644 | after clearing, a recorded change does not switch Save on, since there is no file name |
| Auxiliary.StreqAny | source/auxiliary.c:173-187 | true exactly when the string is one of the candidates, hence never for NULL |
| Auxiliary.FreeElements | source/auxiliary.c:95-105 | the first n entries are freed from the last down to the first; with `set_to_NULL` exactly those become NULL and the rest of the array is untouched |
| Auxiliary.UnrefIcon | source/auxiliary.c:195-204 | an empty slot stays empty; otherwise the image loses one reference and the slot is emptied only when asked to |
| Auxiliary.FontSizeOfName | source/auxiliary.c:113-127 | a font name ending in a size (after a part that does not end in a digit) yields exactly that size |
| Auxiliary.TrailingDigitsStart | source/auxiliary.c:113-127 | the match of `[0-9]+$` is the maximal run of digits that ends the name |
| Auxiliary.BasenameOfFile | source/auxiliary.c:135-148 | the basename of a file in a directory is the file's own name |
| Auxiliary.WindowTitle | source/auxiliary.c:135-148 | the title is "Kickshaw - " followed by the basename of the file |
| Auxiliary.StatusText | source/auxiliary.c:156-164 | the status bar shows the message after exactly one space |
| Editing.PlaceLowest | source/editing.c:106-129 | one pass of the outer loop only swaps children: they stay the same rows |
| Editing.SelectionFrom | source/editing.c:104-130 | the passes of the outer loop only swap children: they stay the same rows |
| Editing.SortedOptions | source/editing.c:93-133 | sorting the options of Execute or startupnotify only reorders them |
| Editing.SortForest | source/editing.c:142-166 | the walk keeps the number of rows at each level |
| ActionOptions.MissingExecute | source/adding_and_deleting.c:279-286 | every offered Execute text names an option of Execute that the action lacks |
| ActionOptions.MissingSuboption | source/adding_and_deleting.c:279-286 | every offered startupnotify text names an option that the block lacks |
| ActionOptions.InsertEach | source/adding_and_deleting.c:753-795 | inserting rows one at a time adds exactly their number of children |
| Selecting.ReasonsText | source/selecting.c:269-282 | the list of reasons is empty exactly when dragging is not blocked |
| Registry.MenuIdName | source/adding_and_deleting.c:134 | the ID tried for `n` is "New menu " followed by the decimal digits of `n` |
| Tree.RemoveNode | source/adding_and_deleting.c:1027 | removing a toplevel row shortens the toplevel by one; removing a deeper row keeps its length |
| Tree.InsertNode | source/adding_and_deleting.c:171 | the new row stands at the given index among its siblings, the others in their order around it |
| Tree.SetRow | source/editing.c:594-598 | only the row at the path changes, and its children stay |
| Tree.SetKids | source/editing.c:187-210 | only the children of the row at the path change |
| Kickshaw.UnintegratedSuffix | source/kickshaw.c:1281-1289 | the class of an unintegrated menu ends in "unintegrated menu", so it is highlighted as unintegrated |
| Kickshaw.DescendantOfUnintegratedSuffix | source/kickshaw.c:1281-1289 | so does the class of its descendants |
| Kickshaw.DescendantOfInvisibleSuffix | source/kickshaw.c:1281-1289 | the class of a descendant of an invisible menu does not |
| DragAndDrop.AdjustSubrows | source/drag_and_drop.c:266-297 | every subrow of a dropped row is adjusted in place and the subrows keep their shape |
| DragAndDrop.Shifted | source/drag_and_drop.c:472-474 | each dragged path is shifted by the inserted rows |

## Left out

- Find.CheckForMatch: a case-insensitive search folds ASCII letters only (`Find.Lower`, `Find.LowerAll`), whereas `G_REGEX_CASELESS` folds Unicode case (source/find.c:172-175), so a term "é" does not find "É" in the model.  Regular-expression matching itself is a parameter (`RegexMatch`), because the GRegex engine is not part of this model.
- SaveStructure.MenusNested, SaveStructure.RootNested: the proof that the written file is properly nested assumes the tree is `WellFormed` (every row where `Fits` allows it).  It is not proved that the trees the loader builds or the editing operations produce are well formed, so the theorem covers every well-formed tree but does not by itself show that the editor never writes a badly nested file.
- SaveMenu.Escape: `g_markup_escape_text` is modelled by the five predefined entities of XML 1.0 (section 4.6); control characters, which it writes as character references, are not.
- Icons: pixbuf loading and scaling, icon modification times, the icon-error dialogs, `choose_icon`, `set_icon`, `image_type_filter` and the icon-status column are left out.  Only the icon path is modelled; whether an icon loads is a parameter where the code branches on it.
- Dialogs and widgets: every dialog (the yes/no correction dialog's answer is the parameter `answerYes`; the empty-label message; the missing-label dialogs of `create_dialogs_for_invisible_menus_and_items`), GTK widget construction, signal wiring, popup and context menus, the tree view's expansion state, scrolling and mouse selection blocking are left out.  `show_action_options`, `show_startupnotify_options`, `single_field_entry`, `hide_action_option`, `clear_entries` and `option_list_with_headlines` only lay out widgets; `ActionOptions.FormShown` captures which entries of the option form can hold text.
- ActionOptions.GenerateComboContentForExecuteAndStartupnotifyOpts: the headlines and separators that `generate_action_option_combo_box` puts around the texts (source/adding_and_deleting.c:355-413) are widget decoration and are not modelled.
- Selecting.RowSelected: the label and handler of the Add button and the messages about options that are all set (source/selecting.c:412-542), the sensitivity of the expand and collapse buttons (source/selecting.c:116-151), `avoid_overlapping` and the filling of the entry fields by `set_entry_fields` are widget state and are left out; only whether the entry fields are shown is modelled.
- `key_pressed` (source/editing.c:174-179) only maps the Delete key to `remove_rows`, which is modelled as `AddingAndDeleting.RemoveRows`.
- Timers: source/timer.c polls the file system on a GLib timeout and is not part of this model.
- File and process I/O: reading the menu file, the backup rename, opening the output file, the settings file and `openbox --reconfigure` are left out.  The writer's output is the sequence of lines `SaveMenu.Document`; the loader's input is the sequence of start, end and text events of the tokenizer.
- The GMarkup tokenizer is not part of this model: its element stack appears only as the parent element name passed to `LoadMenu.MenuLoader.StartElement`, and a tokenizer error is not modelled.
- LoadMenu.MenuLoader.StartElement: when a check fails the loader is left unchanged, whereas the code may already have changed some fields before it reports the error.  The load is then abandoned and everything is discarded, so the difference cannot be observed.
- Memory management (`g_free`, reference counts other than `Auxiliary.UnrefIcon`) has no counterpart in Dafny and is left out.
- Integer widths: only the `guint` depth counters of the loader wrap explicitly (`LoadMenu.Inc`, `LoadMenu.Dec`); other counters are unbounded integers, since no realistic menu reaches their limits.

## Findings

| source | as written | input that shows it | evidently intended | confidence | as-written member | corrected member |
|---|---|---|---|---|---|---|
| source/adding_and_deleting.c:771-799 | the startupnotify options typed in the form are inserted for a new Execute action even when the startupnotify check button is cleared, and then go below the last Execute option | command "x", startupnotify button cleared, name "n" left in its entry: a `name` option ends up below `command` | startupnotify options only inside a startupnotify block that the check button asked for | not executed | ActionOptions.ExecuteNameUnderCommand | ActionOptions.ExecuteActionShape |
| source/adding_and_deleting.c:693-695 | choosing "Startupnotify" as the option to add does not reset `insertion_position`, so after the first two options the options of the new block are inserted at a fixed position and come out reversed | an Execute action with prompt selected, name "n" and WM_CLASS "w": the block holds enabled, wmclass, name | the options of the block in the order enabled, name, wmclass, icon | not executed | ActionOptions.StartupnotifyOptionsOutOfOrder | ActionOptions.StartupnotifyBlockShape |
| source/kickshaw.c:1108-1127 | `check_if_invisible_descendant_exists` assigns the shared flag for each row it visits, so across the selected rows only the last one decides whether "Visualise recursively" is offered | two selected invisible menus, the first with an unlabelled item, the second with a labelled one: Visualise recursively stays off | offered when any selected row has an unlabelled descendant | not executed | Selecting.LastSelectedRowDecides | Selecting.VisibilityChecks |
| source/selecting.c:390-392 | the autosort test for the move buttons reads the type of the row selected before, because the text fields are refreshed only afterwards | autosort on, an item selected, then an option with a previous sibling: moving up is offered | options cannot be moved while autosort is on | not executed | Selecting.StaleTypeEnablesMove | Selecting.MoveButtonsFor |
| source/drag_and_drop.c:386-400 | the element of the new parent is read only when rows are dropped between rows below the toplevel; rows dropped onto an Execute action are sorted with a NULL name, that is by the startupnotify order, which ranks none of the Execute options | a prompt dropped onto an Execute action that has a command: prompt stays after command | the children of the Execute action in the order prompt, command, startupnotify | not executed | DragAndDrop.OntoExecuteLeftUnsorted | DragAndDrop.SortAfterDrop |
| source/load_menu.c:961 | a yes/no value corrected while parsing marks the menu as changed, but `clear_global_static_data` runs after the parse and resets the flag | an `enabled` option with the text "maybe", answered "yes": the menu is not marked as changed | a corrected value marks the loaded menu as changed, so it is saved | not executed | LoadMenu.CorrectionLost | LoadMenu.ReplacedValueMarksChange |
