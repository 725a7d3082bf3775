/*
 * The data the editor keeps for as long as it runs: the name of the menu
 * file, the registry of menu IDs, the tree store, whether there are unsaved
 * changes, the text fields of the selected row, the dragged rows and the
 * state of the find grid.  `clear_global_static_data` resets it before a
 * new menu is started or loaded; `activate_change_done` records a change.
 */
module Globals {
  import opened Rows
  import opened Tree
  import opened Find

  /** `txt_fields`: the columns of the selected row as text; all NULL when
      not exactly one row is selected. */
  datatype TxtFields = TxtFields(
    iconPath: Option<string>,
    element: Option<string>,
    typeName: Option<string>,
    value: Option<string>,
    menuId: Option<string>,
    execute: Option<string>,
    visibility: Option<string>)

  const NO_TXT_FIELDS := TxtFields(None, None, None, None, None, None, None)

  /** `repopulate_txt_fields_array`: the columns of `r`. */
  function TxtFieldsOf(r: Row): (t: TxtFields)
    ensures t.typeName == TypeName(r.rtype) && t.element == r.element && t.visibility == r.visibility
    ensures r.rtype != Unknown ==> t != NO_TXT_FIELDS
  {
    TxtFields(r.icon, r.element, TypeName(r.rtype), r.value, r.menuId, r.execute, r.visibility)
  }

  /** Every menu ID of the tree is in the registry, as often as the tree
      uses it, and the registry holds nothing else. */
  ghost predicate Registered(ids: seq<string>, tree: seq<Node>) {
    multiset(ids) == TreeIds(tree)
  }

  class Editor {
    /** `filename`: the menu file, NULL for a menu that was never saved. */
    var filename: Option<string>
    /** `menu_ids`: the registry of menu IDs in use. */
    var menuIds: seq<string>
    /** `treestore`. */
    var tree: seq<Node>
    /** `change_done`: there are unsaved changes. */
    var changeDone: bool
    var txtFields: TxtFields
    /** `source_paths`: the rows a drag would move. */
    var sourcePaths: seq<Path>
    /** `autosort_options`. */
    var autosort: bool
    /** The find grid is shown, with this search term and these settings. */
    var findShown: bool
    var findTerm: string
    var findSettings: Settings
    /** `rows_with_found_occurrences`. */
    var occurrences: seq<Path>

    /** The registry holds the IDs of the tree, and there is no list of
        occurrences while the find grid is hidden. */
    ghost predicate Valid()
      reads this`findSettings, this`menuIds, this`tree, this`findShown, this`occurrences
    {
      RegistryValid() && FindValid()
    }

    ghost predicate RegistryValid()
      reads this`menuIds, this`tree
    {
      Registered(menuIds, tree)
    }

    ghost predicate FindValid()
      reads this`findSettings, this`findShown, this`occurrences
    {
      WellFormed(findSettings) && (!findShown ==> occurrences == [])
    }

    /** The start-up state: no file, no menu, no change, the find grid
        hidden with its default settings. */
    constructor (autosort: bool)
      ensures Valid()
      ensures filename == None && menuIds == [] && tree == [] && !changeDone
      ensures txtFields == NO_TXT_FIELDS && sourcePaths == [] && this.autosort == autosort
      ensures !findShown && findTerm == "" && findSettings == DEFAULT_SETTINGS && occurrences == []
    {
      filename := None;
      menuIds := [];
      tree := [];
      changeDone := false;
      txtFields := NO_TXT_FIELDS;
      sourcePaths := [];
      this.autosort := autosort;
      findShown := false;
      findTerm := "";
      findSettings := DEFAULT_SETTINGS;
      occurrences := [];
    }

    /** `clear_global_static_data`: the file name, the registry and the tree
        are emptied and the change flag is reset; a shown find grid is
        hidden, which resets its entry and buttons and drops the list of
        occurrences. */
    method ClearGlobalStaticData()
      requires Valid()
      modifies this`filename, this`menuIds, this`tree, this`changeDone
      modifies this`findShown, this`findTerm, this`findSettings, this`occurrences
      ensures Valid()
      ensures filename == None && menuIds == [] && tree == [] && !changeDone
      ensures !findShown && occurrences == []
      ensures old(findShown) ==> findTerm == "" && findSettings == DEFAULT_SETTINGS
      ensures !old(findShown) ==> findTerm == old(findTerm) && findSettings == old(findSettings)
      ensures txtFields == old(txtFields) && sourcePaths == old(sourcePaths) && autosort == old(autosort)
    {
      filename := None;
      menuIds := [];
      if findShown {
        findTerm := "";
        findSettings := DEFAULT_SETTINGS;
        findShown := false;
        occurrences := [];
      }
      tree := [];
      changeDone := false;
    }

    /** `activate_change_done`: records the change; Save is switched on when
        there is a file to save to; with the find grid shown, the list of
        occurrences is built anew for the changed tree.  Returns whether
        Save was switched on. */
    method ActivateChangeDone(rx: RegexMatch) returns (saveOn: bool)
      requires Valid()
      modifies this`changeDone, this`occurrences
      ensures Valid() && changeDone && saveOn == filename.Some?
      ensures findShown ==> occurrences == Occurrences(tree, findTerm, findSettings, rx)
      ensures !findShown ==> occurrences == old(occurrences)
      ensures filename == old(filename) && menuIds == old(menuIds) && tree == old(tree)
      ensures txtFields == old(txtFields) && sourcePaths == old(sourcePaths) && autosort == old(autosort)
      ensures findShown == old(findShown) && findTerm == old(findTerm) && findSettings == old(findSettings)
    {
      ghost var ids, t := menuIds, tree;
      assert Registered(ids, t);
      saveOn := filename.Some?;
      var occ := occurrences;
      if findShown {
        occ := CreateListOfRowsWithFoundOccurrences(tree, findTerm, findSettings, rx);
      }
      occurrences, changeDone := occ, true;
      assert menuIds == ids && tree == t;
    }

    /** `create_source_paths_for_dnd` stores the rows a drag would move. */
    method SetSourcePaths(ps: seq<Path>)
      requires Valid()
      modifies this`sourcePaths
      ensures Valid() && sourcePaths == ps && txtFields == old(txtFields)
      ensures filename == old(filename) && menuIds == old(menuIds) && tree == old(tree) && changeDone == old(changeDone)
      ensures autosort == old(autosort) && occurrences == old(occurrences)
      ensures findShown == old(findShown) && findTerm == old(findTerm) && findSettings == old(findSettings)
    {
      sourcePaths := ps;
    }

    /** `repopulate_txt_fields_array`, or the clearing of the text fields. */
    method SetTxtFields(t: TxtFields)
      requires Valid()
      modifies this`txtFields
      ensures Valid() && txtFields == t && sourcePaths == old(sourcePaths)
      ensures filename == old(filename) && menuIds == old(menuIds) && tree == old(tree) && changeDone == old(changeDone)
      ensures autosort == old(autosort) && occurrences == old(occurrences)
      ensures findShown == old(findShown) && findTerm == old(findTerm) && findSettings == old(findSettings)
    {
      txtFields := t;
    }

    /** Save is offered only for a changed menu that has a file. */
    predicate SaveSensitive()
      reads this
    {
      changeDone && filename.Some?
    }
  }

  /** After clearing, nothing can be saved until the menu has a file name,
      however many changes are recorded. */
  method ClearThenChange(e: Editor, rx: RegexMatch) returns (saveOn: bool)
    requires e.Valid()
    modifies e
    ensures e.Valid() && e.changeDone && !saveOn && !e.SaveSensitive()
  {
    e.ClearGlobalStaticData();
    saveOn := e.ActivateChangeDone(rx);
  }
}
