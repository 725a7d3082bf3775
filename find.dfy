/*
 * Searching the tree: which cells match the search term, the list of rows
 * with at least one match (in the order in which the tree store is walked)
 * and the jumps to the previous or next such row.
 */
module Find {
  import opened Rows
  import opened Tree

  /** The searchable columns: menu element, type, value, menu ID and execute
      (the element visibility column is never searched). */
  const COLUMNS := 5

  /** The type column's text; the type of an unrecognised element is NULL. */
  function TypeName(t: RowType): Option<string> {
    match t
    case Menu => Some("menu")
    case PipeMenu => Some("pipe menu")
    case Item => Some("item")
    case Separator => Some("separator")
    case Action => Some("action")
    case OptionRow => Some("option")
    case OptionBlock => Some("option block")
    case Unknown => None
  }

  /** The text of column `column` of a row. */
  function Cell(r: Row, column: nat): Option<string>
    requires column < COLUMNS
  {
    if column == COL_MENU_ELEMENT then r.element
    else if column == COL_TYPE then TypeName(r.rtype)
    else if column == COL_VALUE then r.value
    else if column == COL_MENU_ID then r.menuId
    else r.execute
  }

  /** The state of the find grid's check buttons: one per searchable column,
      "match case" and "regular expression". */
  datatype Settings = Settings(inColumns: seq<bool>, matchCase: bool, regex: bool)

  /** What hiding the find grid resets the buttons to. */
  const DEFAULT_SETTINGS := Settings([true, true, true, true, true], false, true)

  predicate WellFormed(s: Settings) {
    |s.inColumns| == COLUMNS
  }

  /** `g_regex_match_simple (pattern, text, caseless, G_REGEX_MATCH_NOTEMPTY)`
      for a pattern given by the user: the regular expression engine is not
      part of this model and enters as this function. */
  type RegexMatch = (string, string, bool) -> bool

  /** `t` occurs in `s`. */
  predicate Contains(s: string, t: string) {
    exists i :: 0 <= i <= |s| && HasPrefix(s[i..], t)
  }

  function Lower(c: char): char {
    if 'A' <= c <= 'Z' then (c as int + 32) as char else c
  }

  function LowerAll(s: string): (r: string)
    ensures |r| == |s| && forall i :: 0 <= i < |s| ==> r[i] == Lower(s[i])
  {
    if s == [] then [] else [Lower(s[0])] + LowerAll(s[1..])
  }

  /** `check_for_match`: a NULL cell never matches; with "regular expression"
      off the term is escaped, so it matches where it occurs literally (a
      non-empty match is required, so the empty term matches nothing). */
  function CheckForMatch(term: string, r: Row, column: nat, s: Settings, rx: RegexMatch): (m: bool)
    requires column < COLUMNS
    ensures m ==> Cell(r, column).Some?
    ensures !s.regex && s.matchCase ==> (m <==> Cell(r, column).Some? && term != [] && Contains(Cell(r, column).value, term))
  {
    var cell := Cell(r, column);
    if cell == None then false
    else if s.regex then rx(term, cell.value, !s.matchCase)
    else if s.matchCase then term != [] && Contains(cell.value, term)
    else term != [] && Contains(LowerAll(cell.value), LowerAll(term))
  }

  /** Some checked column of the row matches. */
  predicate RowMatches(term: string, r: Row, s: Settings, rx: RegexMatch)
    requires WellFormed(s)
  {
    exists c :: 0 <= c < COLUMNS && s.inColumns[c] && CheckForMatch(term, r, c, s, rx)
  }

  /** `add_occurrence_to_list`: the columns are tried in turn and the path is
      prepended once, at the first match. */
  method AddOccurrenceToList(list: seq<Path>, p: Path, r: Row, term: string, s: Settings, rx: RegexMatch)
    returns (list': seq<Path>)
    requires WellFormed(s)
    ensures list' == if RowMatches(term, r, s, rx) then [p] + list else list
  {
    var c := 0;
    while c < COLUMNS
      invariant 0 <= c <= COLUMNS
      invariant forall k :: 0 <= k < c ==> !(s.inColumns[k] && CheckForMatch(term, r, k, s, rx))
    {
      var hit := s.inColumns[c] && CheckForMatch(term, r, c, s, rx);
      if hit {
        assert RowMatches(term, r, s, rx);
        return [p] + list;
      }
      c := c + 1;
    }
    assert !RowMatches(term, r, s, rx);
    return list;
  }

  /** The paths of `ps` whose rows match, in the order of `ps`. */
  function Matching(ps: seq<Path>, tree: seq<Node>, term: string, s: Settings, rx: RegexMatch): seq<Path>
    requires WellFormed(s) && forall p | p in ps :: ValidPath(tree, p)
  {
    if ps == [] then []
    else
      var last := ps[|ps| - 1];
      if RowMatches(term, NodeAt(tree, last).row, s, rx) then Matching(ps[..|ps| - 1], tree, term, s, rx) + [last]
      else Matching(ps[..|ps| - 1], tree, term, s, rx)
  }

  /** The rows of the tree with a match, in the order of the tree store walk. */
  function Occurrences(tree: seq<Node>, term: string, s: Settings, rx: RegexMatch): seq<Path>
    requires WellFormed(s)
  {
    var ps := Paths(tree, []);
    assert forall p | p in ps :: ValidPath(tree, p) by {
      forall p | p in ps ensures ValidPath(tree, p) {
        PathsExactly(tree, p);
      }
    }
    Matching(ps, tree, term, s, rx)
  }

  lemma {:induction false} MatchingMembers(ps: seq<Path>, tree: seq<Node>, term: string, s: Settings, rx: RegexMatch, p: Path)
    requires WellFormed(s) && forall q | q in ps :: ValidPath(tree, q)
    ensures p in Matching(ps, tree, term, s, rx) <==> p in ps && RowMatches(term, NodeAt(tree, p).row, s, rx)
    decreases |ps|
  {
    if ps != [] {
      var init := ps[..|ps| - 1];
      assert ps == init + [ps[|ps| - 1]];
      MatchingMembers(init, tree, term, s, rx, p);
    }
  }

  lemma {:induction false} MatchingIncreasing(ps: seq<Path>, tree: seq<Node>, term: string, s: Settings, rx: RegexMatch)
    requires WellFormed(s) && forall q | q in ps :: ValidPath(tree, q)
    requires Increasing(ps)
    ensures Increasing(Matching(ps, tree, term, s, rx))
    decreases |ps|
  {
    if ps != [] {
      var init, last := ps[..|ps| - 1], ps[|ps| - 1];
      var m := Matching(init, tree, term, s, rx);
      MatchingIncreasing(init, tree, term, s, rx);
      if RowMatches(term, NodeAt(tree, last).row, s, rx) {
        forall p, q | p in m && q in [last] ensures PathBefore(p, q) {
          MatchingMembers(init, tree, term, s, rx, p);
          var a :| 0 <= a < |init| && init[a] == p;
          assert ps[a] == p;
        }
        IncreasingConcat(m, [last]);
      }
    }
  }

  /** The list holds exactly the matching rows, each once, in tree order. */
  lemma OccurrencesExactly(tree: seq<Node>, term: string, s: Settings, rx: RegexMatch, p: Path)
    requires WellFormed(s)
    ensures p in Occurrences(tree, term, s, rx) <==> ValidPath(tree, p) && RowMatches(term, NodeAt(tree, p).row, s, rx)
    ensures Increasing(Occurrences(tree, term, s, rx))
  {
    var ps := Paths(tree, []);
    forall q | q in ps ensures ValidPath(tree, q) {
      PathsExactly(tree, q);
    }
    PathsExactly(tree, p);
    MatchingMembers(ps, tree, term, s, rx, p);
    PathsIncreasing(tree, []);
    MatchingIncreasing(ps, tree, term, s, rx);
  }

  /** An increasing list holds no path twice. */
  lemma IncreasingOnce(ps: seq<Path>, a: nat, b: nat)
    requires Increasing(ps) && a < b < |ps|
    ensures ps[a] != ps[b]
  {
    PathBeforeIrreflexive(ps[a]);
  }

  /** `create_list_of_rows_with_found_occurrences`: the tree store is walked
      row by row, matching rows are prepended and the list is reversed. */
  method CreateListOfRowsWithFoundOccurrences(tree: seq<Node>, term: string, s: Settings, rx: RegexMatch)
    returns (occ: seq<Path>)
    requires WellFormed(s)
    ensures occ == Occurrences(tree, term, s, rx)
  {
    var ps := Paths(tree, []);
    forall q | q in ps ensures ValidPath(tree, q) {
      PathsExactly(tree, q);
    }
    var list := [];
    var k := 0;
    while k < |ps|
      invariant 0 <= k <= |ps|
      invariant list == Reverse(Matching(ps[..k], tree, term, s, rx))
    {
      MatchingStep(ps, k, tree, term, s, rx);
      list := AddOccurrenceToList(list, ps[k], NodeAt(tree, ps[k]).row, term, s, rx);
      k := k + 1;
    }
    assert ps[..k] == ps;
    ReverseReverse(Matching(ps, tree, term, s, rx));
    occ := Reverse(list);
  }

  /** One more path of the walk: a matching row goes in front of the
      reversed list. */
  lemma MatchingStep(ps: seq<Path>, k: nat, tree: seq<Node>, term: string, s: Settings, rx: RegexMatch)
    requires WellFormed(s) && k < |ps| && forall q | q in ps :: ValidPath(tree, q)
    ensures Reverse(Matching(ps[..k + 1], tree, term, s, rx)) ==
      if RowMatches(term, NodeAt(tree, ps[k]).row, s, rx) then [ps[k]] + Reverse(Matching(ps[..k], tree, term, s, rx))
      else Reverse(Matching(ps[..k], tree, term, s, rx))
  {
    assert ps[..k + 1][..k] == ps[..k];
    ReverseSnoc(Matching(ps[..k], tree, term, s, rx), ps[k]);
  }

  /** `jump_to_previous_or_next_occurrence`: forward, the first occurrence
      after the selected row; back, the last one before it.  The source
      dereferences NULL when there is none, so one must exist. */
  method JumpToPreviousOrNextOccurrence(occ: seq<Path>, path: Path, forward: bool) returns (k: nat)
    requires forward ==> exists j :: 0 <= j < |occ| && PathBefore(path, occ[j])
    requires !forward ==> exists j :: 0 <= j < |occ| && PathBefore(occ[j], path)
    ensures k < |occ|
    ensures forward ==> PathBefore(path, occ[k]) && forall j :: 0 <= j < k ==> !PathBefore(path, occ[j])
    ensures !forward ==> PathBefore(occ[k], path) && forall j :: k < j < |occ| ==> !PathBefore(occ[j], path)
  {
    if forward {
      k := 0;
      while !PathBefore(path, occ[k])
        invariant 0 <= k < |occ|
        invariant forall j :: 0 <= j < k ==> !PathBefore(path, occ[j])
        decreases |occ| - k
      {
        k := k + 1;
      }
    } else {
      k := |occ| - 1;
      while !PathBefore(occ[k], path)
        invariant 0 <= k < |occ|
        invariant forall j :: k < j < |occ| ==> !PathBefore(occ[j], path)
        decreases k
      {
        k := k - 1;
      }
    }
  }

  /** In an increasing list, the forward jump lands on the nearest occurrence
      after the row: every other one after the row comes after it. */
  lemma ForwardIsNearest(occ: seq<Path>, path: Path, k: nat, q: Path)
    requires Increasing(occ) && k < |occ|
    requires forall j :: 0 <= j < k ==> !PathBefore(path, occ[j])
    requires q in occ && PathBefore(path, q)
    ensures q == occ[k] || PathBefore(occ[k], q)
  {
    var j :| 0 <= j < |occ| && occ[j] == q;
  }

  /** In an increasing list, the back jump lands on the nearest occurrence
      before the row. */
  lemma BackIsNearest(occ: seq<Path>, path: Path, k: nat, q: Path)
    requires Increasing(occ) && k < |occ|
    requires forall j :: k < j < |occ| ==> !PathBefore(occ[j], path)
    requires q in occ && PathBefore(q, path)
    ensures q == occ[k] || PathBefore(q, occ[k])
  {
    var j :| 0 <= j < |occ| && occ[j] == q;
  }

  predicate AnyColumn(s: Settings)
    requires WellFormed(s)
  {
    exists c :: 0 <= c < COLUMNS && s.inColumns[c]
  }

  /** `run_search`: an empty term or no checked column clears the list;
      otherwise the list is rebuilt and, when it is not empty, its first row
      becomes the selection (`None`: the selection is left as it is). */
  method RunSearch(tree: seq<Node>, term: string, s: Settings, rx: RegexMatch)
    returns (occ: seq<Path>, select: Option<Path>)
    requires WellFormed(s)
    ensures term == [] || !AnyColumn(s) ==> occ == [] && select == None
    ensures term != [] && AnyColumn(s) ==> occ == Occurrences(tree, term, s, rx)
    ensures select == if occ == [] then None else Some(occ[0])
  {
    var noColumn := true;
    var c := 0;
    while c < COLUMNS
      invariant 0 <= c <= COLUMNS
      invariant noColumn <==> forall k :: 0 <= k < c ==> !s.inColumns[k]
    {
      if s.inColumns[c] {
        noColumn := false;
        break;
      }
      c := c + 1;
    }
    if term == [] || noColumn {
      occ, select := [], None;
    } else {
      occ := CreateListOfRowsWithFoundOccurrences(tree, term, s, rx);
      select := if occ == [] then None else Some(occ[0]);
    }
  }

  /** The row a search selects is the first matching row of the tree. */
  lemma SearchSelectsFirstMatch(tree: seq<Node>, term: string, s: Settings, rx: RegexMatch, p: Path)
    requires WellFormed(s) && ValidPath(tree, p) && RowMatches(term, NodeAt(tree, p).row, s, rx)
    ensures Occurrences(tree, term, s, rx) != []
    ensures var occ := Occurrences(tree, term, s, rx); p == occ[0] || PathBefore(occ[0], p)
  {
    OccurrencesExactly(tree, term, s, rx, p);
    var occ := Occurrences(tree, term, s, rx);
    var j :| 0 <= j < |occ| && occ[j] == p;
  }
}
