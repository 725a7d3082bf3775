/*
 * Saving the menu: the tree store is written to the menu file as Openbox
 * XML.  The file is modelled as its sequence of lines (the text is the
 * lines joined by newlines); every write that ends a line in the source
 * appends one element here, and the runs of two-space indentation units
 * written before a tag are part of that tag's line.
 *
 * The toplevel menus are written first (`save_menu`), each followed by
 * its subrows, which a pre-order walk writes one per line
 * (`treestore_save_process_iteration`); the closing tags are not written
 * when an element ends but when the walk next climbs, or reaches the end
 * (`closing_tags`), from depth arithmetic alone.  The main result is that,
 * for every menu that follows the Openbox grammar, this produces the same
 * lines as writing each element structurally: its opening tag, its
 * children one level deeper, its closing tag.
 */
module SaveMenu {
  import opened Rows
  import opened Tree

  // ---------------------------------------------------------------------
  // Escaping (`get_field_values` passes every text through
  // `g_markup_escape_text`).

  /** The entity written for one character. */
  function EscapeChar(c: char): string {
    if c == '&' then "&amp;"
    else if c == '<' then "&lt;"
    else if c == '>' then "&gt;"
    else if c == '\'' then "&apos;"
    else if c == '"' then "&quot;"
    else [c]
  }

  function Escape(s: string): (e: string)
    ensures |e| >= |s|
    decreases |s|
  {
    if s == [] then [] else EscapeChar(s[0]) + Escape(s[1..])
  }

  /** The reading of the entities back, as an XML parser does. */
  function Unescape(s: string): string
    decreases |s|
  {
    if s == [] then []
    else if HasPrefix(s, "&amp;") then "&" + Unescape(s[5..])
    else if HasPrefix(s, "&lt;") then "<" + Unescape(s[4..])
    else if HasPrefix(s, "&gt;") then ">" + Unescape(s[4..])
    else if HasPrefix(s, "&apos;") then "'" + Unescape(s[6..])
    else if HasPrefix(s, "&quot;") then "\"" + Unescape(s[6..])
    else [s[0]] + Unescape(s[1..])
  }

  predicate Special(c: char) {
    c == '&' || c == '<' || c == '>' || c == '\'' || c == '"'
  }

  /** A text whose `i`-th character differs from the entity's does not
      start with it. */
  lemma NotEntity(s: string, p: string, i: nat)
    requires i < |p| && i < |s| && s[i] != p[i]
    ensures !HasPrefix(s, p)
  {
    if |p| <= |s| {
      assert s[..|p|][i] == s[i];
    }
  }

  /** The entity of one character, followed by anything, reads back as that
      character. */
  lemma UnescapeChar(c: char, t: string)
    ensures Unescape(EscapeChar(c) + t) == [c] + Unescape(t)
  {
    var e := EscapeChar(c) + t;
    if c == '&' {
      assert HasPrefix(e, "&amp;") && e[5..] == t;
    } else if c == '<' {
      NotEntity(e, "&amp;", 1);
      assert HasPrefix(e, "&lt;") && e[4..] == t;
    } else if c == '>' {
      NotEntity(e, "&amp;", 1);
      NotEntity(e, "&lt;", 1);
      assert HasPrefix(e, "&gt;") && e[4..] == t;
    } else if c == '\'' {
      NotEntity(e, "&amp;", 2);
      NotEntity(e, "&lt;", 1);
      NotEntity(e, "&gt;", 1);
      assert HasPrefix(e, "&apos;") && e[6..] == t;
    } else if c == '"' {
      NotEntity(e, "&amp;", 1);
      NotEntity(e, "&lt;", 1);
      NotEntity(e, "&gt;", 1);
      NotEntity(e, "&apos;", 1);
      assert HasPrefix(e, "&quot;") && e[6..] == t;
    } else {
      NotEntity(e, "&amp;", 0);
      NotEntity(e, "&lt;", 0);
      NotEntity(e, "&gt;", 0);
      NotEntity(e, "&apos;", 0);
      NotEntity(e, "&quot;", 0);
      assert e[0] == c && e[1..] == t;
    }
  }

  /** Escaping loses nothing: the text reads back as it was. */
  lemma {:induction false} UnescapeEscape(s: string)
    ensures Unescape(Escape(s)) == s
    decreases |s|
  {
    if s != [] {
      UnescapeChar(s[0], Escape(s[1..]));
      UnescapeEscape(s[1..]);
      assert [s[0]] + s[1..] == s;
    }
  }

  /** An escaped text holds no quote, so it cannot end an attribute value,
      and no angle bracket, so it cannot start or end a tag. */
  lemma {:induction false} EscapeIsQuoteFree(s: string)
    ensures forall k :: 0 <= k < |Escape(s)| ==> Escape(s)[k] != '"' && Escape(s)[k] != '<' && Escape(s)[k] != '>'
    decreases |s|
  {
    if s != [] {
      EscapeIsQuoteFree(s[1..]);
      var e, r := EscapeChar(s[0]), Escape(s[1..]);
      assert Escape(s) == e + r;
      forall k | 0 <= k < |e + r| ensures (e + r)[k] != '"' && (e + r)[k] != '<' && (e + r)[k] != '>' {
        if k >= |e| {
          assert (e + r)[k] == r[k - |e|];
        }
      }
    }
  }

  /** A text without special characters is written as it is. */
  lemma {:induction false} EscapePlain(s: string)
    requires forall k :: 0 <= k < |s| ==> !Special(s[k])
    ensures Escape(s) == s
    decreases |s|
  {
    if s != [] {
      EscapePlain(s[1..]);
      assert [s[0]] + s[1..] == s;
    }
  }

  function EscapeOpt(o: Option<string>): (e: Option<string>)
    ensures e.Some? <==> o.Some?
  {
    if o.None? then None else Some(Escape(o.value))
  }

  /** The text fields of a row as `get_field_values` returns them. */
  function EscapedRow(r: Row): (e: Row)
    ensures e.rtype == r.rtype
  {
    r.(element := EscapeOpt(r.element), value := EscapeOpt(r.value), menuId := EscapeOpt(r.menuId),
       execute := EscapeOpt(r.execute), icon := EscapeOpt(r.icon), visibility := EscapeOpt(r.visibility))
  }

  /** `printf`'s rendering of a NULL string argument. */
  function Text(o: Option<string>): string {
    if o.Some? then o.value else "(null)"
  }

  // ---------------------------------------------------------------------
  // Tags.

  /** An opening tag: its name, its attributes in order, and whether it
      closes itself. */
  datatype Tag = Tag(name: string, attrs: seq<(string, string)>, selfClosing: bool)

  function RenderAttrs(attrs: seq<(string, string)>): string
    decreases |attrs|
  {
    if attrs == [] then "" else " " + (attrs[0].0 + ("=\"" + (attrs[0].1 + ("\"" + RenderAttrs(attrs[1..])))))
  }

  function Render(t: Tag): string {
    "<" + (t.name + (RenderAttrs(t.attrs) + (if t.selfClosing then "/>" else ">")))
  }

  /** The characters of tag and attribute names. */
  predicate NameChar(c: char) {
    c != ' ' && c != '=' && c != '"' && c != '/' && c != '>' && c != '<'
  }

  predicate IsName(s: string) {
    s != [] && forall k :: 0 <= k < |s| ==> NameChar(s[k])
  }

  predicate QuoteFree(s: string) {
    forall k :: 0 <= k < |s| ==> s[k] != '"'
  }

  /** A tag the reader can take apart: names are names and no value holds a
      quote. */
  predicate Readable(t: Tag) {
    IsName(t.name) && forall i :: 0 <= i < |t.attrs| ==> IsName(t.attrs[i].0) && QuoteFree(t.attrs[i].1)
  }

  /** The length of the name at the start of `s`. */
  function NameLength(s: string): (n: nat)
    ensures n <= |s|
    decreases |s|
  {
    if s != [] && NameChar(s[0]) then 1 + NameLength(s[1..]) else 0
  }

  /** The length of the text before the first quote of `s`. */
  function QuoteLength(s: string): (n: nat)
    ensures n <= |s|
    decreases |s|
  {
    if s == [] || s[0] == '"' then 0 else 1 + QuoteLength(s[1..])
  }

  /** The attributes at the start of `s` and what follows them. */
  function ParseAttrs(s: string): (r: (seq<(string, string)>, string))
    decreases |s|
  {
    if s != [] && s[0] == ' ' then
      var s1 := s[1..];
      var n := NameLength(s1);
      var s2 := s1[n..];
      if n > 0 && |s2| >= 2 && s2[0] == '=' && s2[1] == '"' then
        var s3 := s2[2..];
        var j := QuoteLength(s3);
        if j < |s3| then
          var rest := ParseAttrs(s3[j + 1..]);
          ([(s1[..n], s3[..j])] + rest.0, rest.1)
        else ([], s)
      else ([], s)
    else ([], s)
  }

  /** Reads one opening tag. */
  function ParseTag(s: string): Option<Tag> {
    if s != [] && s[0] == '<' then
      var n := NameLength(s[1..]);
      var r := ParseAttrs(s[1..][n..]);
      if n == 0 then None
      else if r.1 == "/>" then Some(Tag(s[1..][..n], r.0, true))
      else if r.1 == ">" then Some(Tag(s[1..][..n], r.0, false))
      else None
    else None
  }

  lemma {:induction false} NameLengthOf(name: string, t: string)
    requires forall k :: 0 <= k < |name| ==> NameChar(name[k])
    requires t == [] || !NameChar(t[0])
    ensures NameLength(name + t) == |name|
    decreases |name|
  {
    if name == [] {
      assert name + t == t;
    } else {
      assert (name + t)[1..] == name[1..] + t;
      NameLengthOf(name[1..], t);
    }
  }

  lemma {:induction false} QuoteLengthOf(v: string, t: string)
    requires QuoteFree(v) && t != [] && t[0] == '"'
    ensures QuoteLength(v + t) == |v|
    decreases |v|
  {
    if v == [] {
      assert v + t == t;
    } else {
      assert (v + t)[1..] == v[1..] + t;
      QuoteLengthOf(v[1..], t);
    }
  }

  /** One attribute, read back. */
  lemma ParseOneAttr(key: string, value: string, more: string)
    requires IsName(key) && QuoteFree(value)
    ensures ParseAttrs(" " + (key + ("=\"" + (value + ("\"" + more))))) == ([(key, value)] + ParseAttrs(more).0, ParseAttrs(more).1)
  {
    var s3 := value + ("\"" + more);
    var s2 := "=\"" + s3;
    var s1 := key + s2;
    var s := " " + s1;
    assert s != [] && s[0] == ' ' && s[1..] == s1;
    NameLengthOf(key, s2);
    assert NameLength(s1) == |key| > 0;
    assert s1[|key|..] == s2 && s1[..|key|] == key;
    assert |s2| >= 2 && s2[0] == '=' && s2[1] == '"' && s2[2..] == s3;
    QuoteLengthOf(value, "\"" + more);
    assert QuoteLength(s3) == |value| < |s3|;
    assert s3[..|value|] == value && s3[|value| + 1..] == more;
  }

  /** The first attribute written, then the others and what follows. */
  lemma RenderAttrsCons(attrs: seq<(string, string)>, tail: string)
    requires attrs != []
    ensures RenderAttrs(attrs) + tail
            == " " + (attrs[0].0 + ("=\"" + (attrs[0].1 + ("\"" + (RenderAttrs(attrs[1..]) + tail)))))
  {
    var r := RenderAttrs(attrs[1..]);
    var v := attrs[0].1 + ("\"" + r);
    assert v + tail == attrs[0].1 + ("\"" + (r + tail));
    var k := attrs[0].0 + ("=\"" + v);
    assert k + tail == attrs[0].0 + ("=\"" + (v + tail));
  }

  /** Writing attributes and reading them back gives them again, and the
      reader stops where they end. */
  lemma {:induction false} ParseRenderAttrs(attrs: seq<(string, string)>, tail: string)
    requires forall i :: 0 <= i < |attrs| ==> IsName(attrs[i].0) && QuoteFree(attrs[i].1)
    requires tail == [] || tail[0] != ' '
    ensures ParseAttrs(RenderAttrs(attrs) + tail) == (attrs, tail)
    decreases |attrs|
  {
    if attrs == [] {
      assert RenderAttrs(attrs) + tail == tail;
    } else {
      var a := attrs[0];
      var more := RenderAttrs(attrs[1..]) + tail;
      RenderAttrsCons(attrs, tail);
      ParseOneAttr(a.0, a.1, more);
      ParseRenderAttrs(attrs[1..], tail);
      assert [a] + attrs[1..] == attrs;
    }
  }

  /** A tag is read as its name followed by its attributes. */
  lemma ParseTagParts(name: string, rest: string)
    requires IsName(name) && (rest == [] || !NameChar(rest[0]))
    ensures ParseTag("<" + (name + rest)) ==
      (var r := ParseAttrs(rest);
       if r.1 == "/>" then Some(Tag(name, r.0, true)) else if r.1 == ">" then Some(Tag(name, r.0, false)) else None)
  {
    var s := "<" + (name + rest);
    assert s[1..] == name + rest;
    NameLengthOf(name, rest);
    assert (name + rest)[|name|..] == rest && (name + rest)[..|name|] == name;
  }

  /** A written tag reads back as itself. */
  lemma ParseRender(t: Tag)
    requires Readable(t)
    ensures ParseTag(Render(t)) == Some(t)
  {
    var close := if t.selfClosing then "/>" else ">";
    var rest := RenderAttrs(t.attrs) + close;
    if t.attrs != [] {
      assert rest[0] == ' ';
    }
    ParseTagParts(t.name, rest);
    ParseRenderAttrs(t.attrs, close);
  }

  // ---------------------------------------------------------------------
  // `write_tag`.

  /** The stage a menu file is written in: the menu definitions, then the
      root menu. */
  datatype Stage = Menus | RootMenu

  /** The stage argument of `write_tag`: one of the stages, or
      `IND_OF_MENU_STAGE` for items, actions and separators below the
      toplevel. */
  datatype TagStage = MenusTag | RootMenuTag | StageIndependent

  /** The level argument of `write_tag`: `TOPLEVEL`, `FILTER_LEVEL` (a row
      below the toplevel) or `IND_OF_LEVEL`. */
  datatype Level = Toplevel | FilterLevel | LevelIndependent

  datatype TagType = MenuOrPipeMenu | ItemOrAction | SeparatorTag

  /** The label attribute, when there is a label. */
  function LabelAttr(r: Row): seq<(string, string)> {
    if r.element.Some? then [("label", r.element.value)] else []
  }

  function IconAttr(r: Row): seq<(string, string)> {
    if r.icon.Some? then [("icon", r.icon.value)] else []
  }

  /** The opening tag of a menu or pipe menu: in the root stage a menu is
      a reference without its label; a pipe menu always carries its
      command, empty when it has none; an icon is written except on a
      menu definition at the toplevel; in the root stage the tag closes
      itself, elsewhere exactly when the menu has no children. */
  function MenuTag(stage: TagStage, level: Level, r: Row, hasChild: bool): Tag {
    Tag("menu",
        [("id", Text(r.menuId))]
        + (if stage == RootMenuTag && r.rtype == Menu then [] else LabelAttr(r))
        + (if r.rtype == PipeMenu then [("execute", if r.execute.Some? then r.execute.value else "")] else [])
        + (if stage == RootMenuTag || level == FilterLevel then IconAttr(r) else []),
        stage == RootMenuTag || !hasChild)
  }

  /** The opening tag of an item (label and icon when set) or of an action
      (its name); either closes itself when it has no children. */
  function ItemOrActionTag(r: Row, hasChild: bool): Tag {
    if r.rtype == Item then Tag("item", LabelAttr(r) + IconAttr(r), !hasChild)
    else Tag("action", [("name", Text(r.element))], !hasChild)
  }

  function SeparatorTagOf(r: Row): Tag {
    Tag("separator", LabelAttr(r), true)
  }

  /** `write_tag`: the tag of the row, after two spaces in the root stage. */
  function WriteTag(stage: TagStage, level: Level, r: Row, hasChild: bool, kind: TagType): string {
    (if stage == RootMenuTag then "  " else "")
    + Render(match kind
             case MenuOrPipeMenu => MenuTag(stage, level, r, hasChild)
             case ItemOrAction => ItemOrActionTag(r, hasChild)
             case SeparatorTag => SeparatorTagOf(r))
  }

  // ---------------------------------------------------------------------
  // The walk below a menu or item (`treestore_save_process_iteration`).

  /** One row of the walk: its depth below the row being processed, its
      escaped fields and whether it has children. */
  datatype Visit = Visit(depth: nat, row: Row, hasChild: bool)

  /** The rows below a processed row in the order `gtk_tree_model_foreach`
      visits them. */
  function Walk(f: seq<Node>, d: nat): (w: seq<Visit>)
    ensures |w| >= |f|
    ensures f != [] ==> w[0] == Visit(d, EscapedRow(f[0].row), f[0].children != [])
    decreases f
  {
    if f == [] then []
    else [Visit(d, EscapedRow(f[0].row), f[0].children != [])] + Walk(f[0].children, d + 1) + Walk(f[1..], d)
  }

  /** The text of a row's line after its indentation: the tag of a menu,
      pipe menu, item, action or separator; an option with a value as
      `<name>value</name>`; an option block with children opens
      `<startupnotify>`; any other row closes itself. */
  function RowText(v: Visit): (s: string)
    ensures s != [] && s[0] == '<'
  {
    var r := v.row;
    if IsMenuOrPipe(r.rtype) then WriteTag(MenusTag, FilterLevel, r, v.hasChild, MenuOrPipeMenu)
    else if r.rtype == Item || r.rtype == Action || r.rtype == Separator then
      WriteTag(StageIndependent, LevelIndependent, r, v.hasChild, if r.rtype == Separator then SeparatorTag else ItemOrAction)
    else if r.value.Some? || v.hasChild then
      (if r.rtype == OptionRow then "<" + Text(r.element) + ">" + Text(r.value) + "</" + Text(r.element) + ">"
       else "<startupnotify>")
    else "<" + Text(r.element) + "/>"
  }

  /** `n` indentation units of two spaces. */
  function Indent(n: nat): (s: string)
    ensures |s| == 2 * n
  {
    if n == 0 then "" else Indent(n - 1) + "  "
  }

  /** The number of turns of `for (c = from; c < below; c++)`. */
  function Count(from: int, below: int): nat {
    if below > from then below - from else 0
  }

  /** The first indentation counter: 1 in the menus stage, 0 in the root
      stage. */
  function Offset(stage: Stage): int {
    if stage == Menus then 1 else 0
  }

  /** A row's line: `depth - offset + 1` units, then its text. */
  function RowLine(stage: Stage, v: Visit): string {
    Indent(Count(Offset(stage), v.depth + 1)) + RowText(v)
  }

  /** The number of spaces a line starts with. */
  function LeadingSpaces(s: string): nat
    decreases |s|
  {
    if s != [] && s[0] == ' ' then 1 + LeadingSpaces(s[1..]) else 0
  }

  lemma {:induction false} LeadingSpacesMore(a: string, b: string)
    requires forall k :: 0 <= k < |a| ==> a[k] == ' '
    ensures LeadingSpaces(a + b) == |a| + LeadingSpaces(b)
    decreases |a|
  {
    if a == [] {
      assert a + b == b;
    } else {
      assert (a + b)[1..] == a[1..] + b;
      LeadingSpacesMore(a[1..], b);
    }
  }

  lemma {:induction false} IndentIsSpaces(n: nat)
    ensures forall k :: 0 <= k < |Indent(n)| ==> Indent(n)[k] == ' '
    decreases n
  {
    if n > 0 {
      IndentIsSpaces(n - 1);
    }
  }

  /** A row at depth `d` of the walk is preceded by `d - offset + 1`
      indentation units, where the offset is 1 in the menus stage and 0 in
      the root stage. */
  lemma RowIndentation(stage: Stage, v: Visit)
    requires v.depth >= 1
    ensures LeadingSpaces(RowLine(stage, v)) == 2 * (v.depth - Offset(stage) + 1)
  {
    var n := Count(Offset(stage), v.depth + 1);
    IndentIsSpaces(n);
    LeadingSpacesMore(Indent(n), RowText(v));
  }

  // ---------------------------------------------------------------------
  // `closing_tags`.

  /** An option of a startupnotify block. */
  predicate IsSuboption(v: Visit) {
    v.row.rtype == OptionRow && StrIn(v.row.element, STARTUPNOTIFY_OPTIONS)
  }

  /** The walk leaves a startupnotify block: the previous row was one of
      its options and the current one is not, or the end is reached. */
  predicate StartupnotifyCloses(prev: Visit, cur: Visit, last: bool) {
    IsSuboption(prev) && (!IsSuboption(cur) || last)
  }

  /** The walk leaves an action's options. */
  predicate ActionCloses(prev: Visit, cur: Visit, last: bool) {
    IsOptionLike(prev.row.rtype) && (!IsOptionLike(cur.row.rtype) || last)
  }

  /** `action_closing_tag_subtraction`: how many levels the `</action>`
      line lies above the previous row (1 below an action, 2 below a
      startupnotify block), 0 after an action without options, and -1
      otherwise. */
  function Subtraction(prev: Visit, cur: Visit, last: bool): int {
    if ActionCloses(prev, cur, last) then (if StrIn(prev.row.element, ["command", "prompt", "startupnotify"]) then 1 else 2)
    else if prev.row.rtype == Action && !prev.hasChild then 0
    else -1
  }

  /** An item is left: the previous row was not a menu, pipe menu,
      separator or item without children, and the current row is at menu
      level or the end is reached. */
  predicate ItemCloses(prev: Visit, cur: Visit, last: bool) {
    var t := prev.row.rtype;
    !(t == Menu || t == PipeMenu || t == Separator || (t == Item && !prev.hasChild))
    && (IsMenuLevel(cur.row.rtype) || last)
  }

  /** `</menu>` lines for each depth from `from` down to `downto`, each
      indented by its depth. */
  function MenuCloses(from: int, downto: int): (ls: seq<string>)
    ensures |ls| == Count(downto, from + 1)
    decreases from - downto
  {
    if from < downto then [] else MenuCloses(from, downto + 1) + [Indent(Count(1, downto + 1)) + "</menu>"]
  }

  /** The lines `closing_tags` writes when the walk moves from `prev`, at
      depth `prevDepth`, to `cur` (at the end, `cur` is the last row
      again and the depth of the next row counts as 1). */
  function ClosingLines(stage: Stage, prev: Visit, prevDepth: int, cur: Visit, last: bool): seq<string> {
    var sub := Subtraction(prev, cur, last);
    StartupnotifyLines(stage, prev, prevDepth, cur, last)
    + ActionLines(stage, prev, prevDepth, cur, last, sub)
    + ItemLines(stage, prev, prevDepth, cur, last, sub)
    + MenuLines(stage, prevDepth, cur, last, sub)
  }

  function StartupnotifyLines(stage: Stage, prev: Visit, prevDepth: int, cur: Visit, last: bool): seq<string> {
    if StartupnotifyCloses(prev, cur, last) then [Indent(Count(Offset(stage), prevDepth)) + "</startupnotify>"] else []
  }

  function ActionLines(stage: Stage, prev: Visit, prevDepth: int, cur: Visit, last: bool, sub: int): seq<string> {
    if ActionCloses(prev, cur, last) then [Indent(Count(Offset(stage), prevDepth - sub + 1)) + "</action>"] else []
  }

  function ItemLines(stage: Stage, prev: Visit, prevDepth: int, cur: Visit, last: bool, sub: int): seq<string> {
    if ItemCloses(prev, cur, last) then [Indent(Count(Offset(stage), prevDepth - sub)) + "</item>"] else []
  }

  /** In the menus stage, the `</menu>` lines down to the depth of the
      current row (1 at the end) when it is at menu level. */
  function MenuLines(stage: Stage, prevDepth: int, cur: Visit, last: bool, sub: int): seq<string> {
    var depth := if last then 1 else cur.depth;
    if stage == Menus && (IsMenuLevel(cur.row.rtype) || last) && depth < prevDepth - sub - 1
    then MenuCloses(prevDepth - sub - 2, depth) else []
  }

  /** What is written between `prev` and the next row of the walk, or after
      `prev` at the end: closing tags only when the walk climbs. */
  function Transition(stage: Stage, prev: Visit, next: Option<Visit>): seq<string> {
    match next
    case None => ClosingLines(stage, prev, prev.depth, prev, true)
    case Some(v) => if v.depth < prev.depth then ClosingLines(stage, prev, prev.depth, v, false) else []
  }

  /** The lines written for the rows of `w`, with the closing tags between
      them but not after the last one. */
  function Steps(stage: Stage, w: seq<Visit>): seq<string>
    decreases |w|
  {
    if w == [] then []
    else Steps(stage, w[..|w| - 1])
         + (if |w| > 1 then Transition(stage, w[|w| - 2], Some(w[|w| - 1])) else [])
         + [RowLine(stage, w[|w| - 1])]
  }

  /** The lines `process_menu_or_item` writes for the walk `w`. */
  function Written(stage: Stage, w: seq<Visit>): seq<string>
    requires w != []
  {
    Steps(stage, w) + Transition(stage, w[|w| - 1], None)
  }

  /** One more row of the walk adds the closing tags before it, if any,
      and its line. */
  lemma StepsNext(stage: Stage, w: seq<Visit>, k: nat, pv: Visit, pd: int)
    requires k < |w|
    requires k == 0 ==> pd == 0 && w[k].depth >= 1
    requires k > 0 ==> pv == w[k - 1] && pd == w[k - 1].depth
    ensures Steps(stage, w[..k + 1]) == Steps(stage, w[..k])
      + (if w[k].depth < pd then ClosingLines(stage, pv, pd, w[k], false) else []) + [RowLine(stage, w[k])]
  {
    var u := w[..k + 1];
    assert u[..|u| - 1] == w[..k] && u[|u| - 1] == w[k];
    var x := if |u| > 1 then Transition(stage, u[|u| - 2], Some(u[|u| - 1])) else [];
    var c := if w[k].depth < pd then ClosingLines(stage, pv, pd, w[k], false) else [];
    if k > 0 {
      assert u[|u| - 2] == w[k - 1];
      assert x == Transition(stage, pv, Some(w[k]));
    }
    assert x == c;
    assert Steps(stage, u) == Steps(stage, w[..k]) + x + [RowLine(stage, w[k])];
  }

  /** The end of the walk closes what the last row left open. */
  lemma WrittenAfter(stage: Stage, w: seq<Visit>, base: seq<string>, a: seq<string>, b: seq<string>)
    requires w != [] && a == base + Steps(stage, w)
    requires b == a + ClosingLines(stage, w[|w| - 1], w[|w| - 1].depth, w[|w| - 1], true)
    ensures b == base + Written(stage, w)
  {
    var t := Transition(stage, w[|w| - 1], None);
    assert Written(stage, w) == Steps(stage, w) + t;
    AssociateThree(base, Steps(stage, w), t);
  }

  lemma AssociateThree<T>(a: seq<T>, b: seq<T>, c: seq<T>)
    ensures a + b + c == a + (b + c)
  {
  }

  lemma Associate<T>(a: seq<T>, b: seq<T>, c: seq<T>, d: seq<T>)
    ensures a + b + c + d == a + (b + c + d)
  {
  }

  lemma {:induction false} WalkDepths(f: seq<Node>, d: nat)
    ensures forall k :: 0 <= k < |Walk(f, d)| ==> Walk(f, d)[k].depth >= d
    decreases f
  {
    if f != [] {
      WalkDepths(f[0].children, d + 1);
      WalkDepths(f[1..], d);
    }
  }

  /** `n` indentation units, written by a counting loop. */
  method Spaces(from: int, below: int) returns (s: string)
    ensures s == Indent(Count(from, below))
  {
    s := "";
    var c := from;
    while c < below
      invariant from <= c && (c == from || c <= below)
      invariant s == Indent(c - from)
    {
      s := s + "  ";
      c := c + 1;
    }
    assert c - from == Count(from, below);
  }

  const EMPTY_ROW := Row(Unknown, None, None, None, None, None, None)

  /** The file being written and `save_menu_args`: the stage, the previous
      row of the walk and its depth. */
  class MenuWriter {
    var lines: seq<string>
    var stage: Stage
    var prev: Visit
    var prevDepth: int

    constructor ()
      ensures lines == [] && stage == Menus && prevDepth == 0
    {
      lines := [];
      stage := Menus;
      prev := Visit(0, EMPTY_ROW, false);
      prevDepth := 0;
    }

    method Write(ls: seq<string>)
      modifies this`lines
      ensures lines == old(lines) + ls
    {
      lines := lines + ls;
    }

    /** `closing_tags`. */
    method ClosingTags(last: bool, cur: Visit)
      modifies this`lines
      ensures lines == old(lines) + ClosingLines(stage, prev, prevDepth, cur, last)
    {
      ghost var l0 := lines;
      CloseStartupnotify(last, cur);
      ghost var a := StartupnotifyLines(stage, prev, prevDepth, cur, last);
      var sub := CloseAction(last, cur);
      ghost var b := ActionLines(stage, prev, prevDepth, cur, last, sub);
      AssociateThree(l0, a, b);
      CloseItem(last, cur, sub);
      ghost var c := ItemLines(stage, prev, prevDepth, cur, last, sub);
      AssociateThree(l0, a + b, c);
      CloseMenus(last, cur, sub);
      ghost var d := MenuLines(stage, prevDepth, cur, last, sub);
      AssociateThree(l0, a + b + c, d);
    }

    /** The `</startupnotify>` of `closing_tags`. */
    method CloseStartupnotify(last: bool, cur: Visit)
      modifies this`lines
      ensures lines == old(lines) + StartupnotifyLines(stage, prev, prevDepth, cur, last)
    {
      if StartupnotifyCloses(prev, cur, last) {
        var ind := Spaces(Offset(stage), prevDepth);
        lines := lines + [ind + "</startupnotify>"];
      }
    }

    /** The `</action>` of `closing_tags`, and the subtraction it sets. */
    method CloseAction(last: bool, cur: Visit) returns (sub: int)
      modifies this`lines
      ensures sub == Subtraction(prev, cur, last)
      ensures lines == old(lines) + ActionLines(stage, prev, prevDepth, cur, last, sub)
    {
      sub := -1;
      if ActionCloses(prev, cur, last) {
        sub := if StrIn(prev.row.element, ["command", "prompt", "startupnotify"]) then 1 else 2;
        var ind := Spaces(Offset(stage), prevDepth - sub + 1);
        lines := lines + [ind + "</action>"];
      }
      if prev.row.rtype == Action && !prev.hasChild {
        sub := 0;
      }
    }

    /** The `</item>` of `closing_tags`. */
    method CloseItem(last: bool, cur: Visit, sub: int)
      modifies this`lines
      ensures lines == old(lines) + ItemLines(stage, prev, prevDepth, cur, last, sub)
    {
      if ItemCloses(prev, cur, last) {
        var ind := Spaces(Offset(stage), prevDepth - sub);
        lines := lines + [ind + "</item>"];
      }
    }

    /** The `</menu>` lines of `closing_tags`. */
    method CloseMenus(last: bool, cur: Visit, sub: int)
      modifies this`lines
      ensures lines == old(lines) + MenuLines(stage, prevDepth, cur, last, sub)
    {
      if stage == Menus {
        var depth := if last then 1 else cur.depth;
        if (IsMenuLevel(cur.row.rtype) || last) && depth < prevDepth - sub - 1 {
          WriteMenuCloses(prevDepth - sub - 2, depth);
        }
      }
    }

    /** The loop of `closing_tags` over the depths of the open menus. */
    method WriteMenuCloses(from: int, downto: int)
      requires downto - 1 <= from
      modifies this`lines
      ensures lines == old(lines) + MenuCloses(from, downto)
    {
      var d := from;
      while d >= downto
        invariant downto - 1 <= d <= from
        invariant lines == old(lines) + MenuCloses(from, d + 1)
      {
        var ind := Spaces(1, d + 1);
        lines := lines + [ind + "</menu>"];
        d := d - 1;
      }
    }

    /** `treestore_save_process_iteration`: the closing tags when the walk
      climbs, then the row's line; the row becomes the previous one. */
    method ProcessIteration(v: Visit)
      modifies this`lines, this`prev, this`prevDepth
      ensures lines == old(lines) + (if v.depth < old(prevDepth) then ClosingLines(stage, old(prev), old(prevDepth), v, false) else [])
                       + [RowLine(stage, v)]
      ensures prev == v && prevDepth == v.depth
    {
      if v.depth < prevDepth {
        ClosingTags(false, v);
      }
      var ind := Spaces(Offset(stage), v.depth + 1);
      lines := lines + [ind + RowText(v)];
      prevDepth := v.depth;
      prev := v;
    }

    /** `process_menu_or_item`: every row below `n` in pre-order, then the
      closing tags of the end; the previous depth is reset. */
    method ProcessMenuOrItem(n: Node)
      requires n.children != [] && prevDepth == 0
      modifies this`lines, this`prev, this`prevDepth
      ensures lines == old(lines) + Written(stage, Walk(n.children, 1)) && prevDepth == 0
    {
      var w := Walk(n.children, 1);
      WalkDepths(n.children, 1);
      ProcessWalk(w);
    }

    /** The rows of a walk one after the other, then the closing tags of
        the end. */
    method ProcessWalk(w: seq<Visit>)
      requires w != [] && prevDepth == 0
      requires forall k :: 0 <= k < |w| ==> w[k].depth >= 1
      modifies this`lines, this`prev, this`prevDepth
      ensures lines == old(lines) + Written(stage, w) && prevDepth == 0
    {
      var k := 0;
      while k < |w|
        invariant 0 <= k <= |w| && lines == old(lines) + Steps(stage, w[..k])
        invariant k == 0 ==> prevDepth == 0
        invariant k > 0 ==> prev == w[k - 1] && prevDepth == w[k - 1].depth
      {
        ProcessStep(w, k, old(lines));
        k := k + 1;
      }
      assert w[..k] == w;
      ghost var a := lines;
      ClosingTags(true, prev);
      WrittenAfter(stage, w, old(lines), a, lines);
      prevDepth := 0;
    }

    /** One turn of the walk: the row `w[k]` after the rows before it. */
    method ProcessStep(w: seq<Visit>, k: nat, ghost base: seq<string>)
      requires k < |w| && lines == base + Steps(stage, w[..k])
      requires k == 0 ==> prevDepth == 0 && w[k].depth >= 1
      requires k > 0 ==> prev == w[k - 1] && prevDepth == w[k - 1].depth
      modifies this`lines, this`prev, this`prevDepth
      ensures lines == base + Steps(stage, w[..k + 1]) && prev == w[k] && prevDepth == w[k].depth
    {
      StepsNext(stage, w, k, prev, prevDepth);
      ghost var x := if w[k].depth < prevDepth then ClosingLines(stage, prev, prevDepth, w[k], false) else [];
      ghost var a := lines;
      ProcessIteration(w[k]);
      assert lines == a + x + [RowLine(stage, w[k])];
      Associate(base, Steps(stage, w[..k]), x, [RowLine(stage, w[k])]);
    }

    /** The first loop of `save_menu`: the menu definitions. */
    method WriteMenuDefinitions(tree: seq<Node>)
      requires stage == Menus && prevDepth == 0
      modifies this`lines, this`prev, this`prevDepth
      ensures lines == old(lines) + MenuDefinitions(tree) && prevDepth == 0
    {
      var i := 0;
      while i < |tree|
        invariant 0 <= i <= |tree| && lines == old(lines) + MenuDefinitions(tree[..i])
        invariant prevDepth == 0
      {
        assert tree[..i + 1][..i] == tree[..i];
        assert MenuDefinitions(tree[..i + 1]) == MenuDefinitions(tree[..i]) + MenuDefinition(tree[i]);
        WriteMenuDefinition(tree[i]);
        AssociateThree(old(lines), MenuDefinitions(tree[..i]), MenuDefinition(tree[i]));
        i := i + 1;
      }
      assert tree[..i] == tree;
    }

    /** The second loop of `save_menu`: the entries of the root menu. */
    method WriteRootEntries(tree: seq<Node>)
      requires stage == RootMenu && prevDepth == 0
      modifies this`lines, this`prev, this`prevDepth
      ensures lines == old(lines) + RootEntries(tree) && prevDepth == 0
    {
      var i := 0;
      while i < |tree|
        invariant 0 <= i <= |tree| && lines == old(lines) + RootEntries(tree[..i])
        invariant prevDepth == 0
      {
        assert tree[..i + 1][..i] == tree[..i];
        assert RootEntries(tree[..i + 1]) == RootEntries(tree[..i]) + RootEntry(tree[i]);
        WriteRootEntry(tree[i]);
        AssociateThree(old(lines), RootEntries(tree[..i]), RootEntry(tree[i]));
        i := i + 1;
      }
      assert tree[..i] == tree;
    }

    /** The first loop of `save_menu`, for one toplevel row. */
    method WriteMenuDefinition(t: Node)
      requires stage == Menus && prevDepth == 0
      modifies this`lines, this`prev, this`prevDepth
      ensures lines == old(lines) + MenuDefinition(t) && prevDepth == 0
    {
      var tag := MenuDefinitionTag(t);
      ghost var rest := MenuDefinitionRest(t);
      Write(tag);
      if MenuDefinitionBody(t) {
        ghost var body := Written(Menus, Walk(t.children, 1));
        ProcessMenuOrItem(t);
        Write(["</menu>"]);
        AssociateThree(old(lines) + tag, body, ["</menu>"]);
      } else {
        assert lines + [] == lines;
      }
      AssociateThree(old(lines), tag, rest);
    }

    /** The second loop of `save_menu`, for one toplevel row. */
    method WriteRootEntry(t: Node)
      requires stage == RootMenu && prevDepth == 0
      modifies this`lines, this`prev, this`prevDepth
      ensures lines == old(lines) + RootEntry(t) && prevDepth == 0
    {
      var tag := RootEntryTag(t);
      Write(tag);
      if RootEntryBody(t) {
        ghost var rest := Written(RootMenu, Walk(t.children, 1));
        ProcessMenuOrItem(t);
        AssociateThree(old(lines), tag, rest);
        assert RootEntry(t) == tag + rest;
      } else {
        assert RootEntry(t) == tag + [] == tag;
      }
    }
  }

  // ---------------------------------------------------------------------
  // The document (`save_menu`).

  const HEADER: seq<string> := ["<?xml version=\"1.0\" encoding=\"UTF-8\"?>", "", "<openbox_menu>", ""]
  const ROOT_MENU_OPEN: seq<string> := ["", "<menu id=\"root-menu\" label=\"Openbox 3\">"]
  const FOOTER: seq<string> := ["</menu>", "", "</openbox_menu>"]

  /** A toplevel row of the menus stage is written: a menu, or a pipe menu
      that is an invisible unintegrated menu. */
  predicate DefinedInMenus(r: Row) {
    r.rtype == Menu || (r.rtype == PipeMenu && Is(r.visibility, UNINTEGRATED))
  }

  /** The first loop of `save_menu` for one toplevel row: a menu definition
      with its subrows and its `</menu>`. */
  function MenuDefinition(t: Node): seq<string> {
    MenuDefinitionTag(t) + MenuDefinitionRest(t)
  }

  /** The subrows of a menu definition and its `</menu>`, if it has any. */
  function MenuDefinitionRest(t: Node): seq<string> {
    if MenuDefinitionBody(t) then Written(Menus, Walk(t.children, 1)) + ["</menu>"] else []
  }

  /** The tag that opens a menu definition, if the row has one. */
  function MenuDefinitionTag(t: Node): seq<string> {
    var r := EscapedRow(t.row);
    if DefinedInMenus(r) then [WriteTag(MenusTag, Toplevel, r, t.children != [], MenuOrPipeMenu)] else []
  }

  /** A menu definition with subrows. */
  predicate MenuDefinitionBody(t: Node) {
    DefinedInMenus(EscapedRow(t.row)) && t.children != []
  }

  /** The second loop for one toplevel row: a reference to a menu or pipe
      menu that is not unintegrated, or an item with its subrows, or a
      separator. */
  function RootEntry(t: Node): seq<string> {
    RootEntryTag(t) + RootEntryRest(t)
  }

  /** The subrows of an item or separator in the root menu. */
  function RootEntryRest(t: Node): seq<string> {
    if RootEntryBody(t) then Written(RootMenu, Walk(t.children, 1)) else []
  }

  /** The line of a toplevel row in the root menu, if it has one. */
  function RootEntryTag(t: Node): seq<string> {
    var r := EscapedRow(t.row);
    if IsMenuOrPipe(r.rtype) && !Is(r.visibility, UNINTEGRATED) then
      [WriteTag(RootMenuTag, Toplevel, r, t.children != [], MenuOrPipeMenu)]
    else if r.rtype == Item || r.rtype == Separator then
      [WriteTag(RootMenuTag, LevelIndependent, r, t.children != [], if r.rtype == Item then ItemOrAction else SeparatorTag)]
    else []
  }

  /** An item or separator in the root menu with subrows. */
  predicate RootEntryBody(t: Node) {
    var r := EscapedRow(t.row);
    (r.rtype == Item || r.rtype == Separator) && t.children != []
  }

  function MenuDefinitions(tree: seq<Node>): seq<string>
    decreases |tree|
  {
    if tree == [] then [] else MenuDefinitions(tree[..|tree| - 1]) + MenuDefinition(tree[|tree| - 1])
  }

  function RootEntries(tree: seq<Node>): seq<string>
    decreases |tree|
  {
    if tree == [] then [] else RootEntries(tree[..|tree| - 1]) + RootEntry(tree[|tree| - 1])
  }

  /** The saved file. */
  function Document(tree: seq<Node>): seq<string> {
    HEADER + MenuDefinitions(tree) + ROOT_MENU_OPEN + RootEntries(tree) + FOOTER
  }

  /** The writing part of `save_menu`. */
  method WriteMenu(tree: seq<Node>) returns (file: seq<string>)
    ensures file == Document(tree)
  {
    var w := new MenuWriter();
    w.Write(HEADER);
    assert w.lines == HEADER;
    w.WriteMenuDefinitions(tree);
    ghost var defs := MenuDefinitions(tree);
    assert w.lines == HEADER + defs;
    w.Write(ROOT_MENU_OPEN);
    ghost var l := w.lines;
    assert l == HEADER + defs + ROOT_MENU_OPEN;
    w.stage := RootMenu;
    w.WriteRootEntries(tree);
    ghost var entries := RootEntries(tree);
    assert w.lines == l + entries;
    w.Write(FOOTER);
    assert w.lines == l + entries + FOOTER;
    file := w.lines;
  }
}
