/*
 * Small helpers shared by all parts of the editor: `streq_any`, freeing a
 * static array of strings, releasing an icon, reading the font size from the
 * font name, the window title and the status bar text.
 */
module Auxiliary {
  import opened Rows

  /** `streq_any (s, c1, ..., cn, NULL)`: the candidates are compared one after
      the other with `g_strcmp0`, so a NULL string equals none of them. */
  method StreqAny(s: Option<string>, candidates: seq<string>) returns (b: bool)
    ensures b <==> StrIn(s, candidates)
    ensures b ==> s.Some?
  {
    var i := 0;
    while i < |candidates|
      invariant 0 <= i <= |candidates|
      invariant forall k :: 0 <= k < i ==> s != Some(candidates[k])
    {
      if s == Some(candidates[i]) {
        return true;
      }
      i := i + 1;
    }
    return false;
  }

  /** `free_elements_of_static_string_array`: the first `n` entries are handed
      to `g_free` from the last down to the first (`freed` lists them in that
      order) and, when asked to, every one of them is set to NULL. */
  method FreeElements(a: array<Option<string>>, n: nat, setToNull: bool) returns (freed: seq<Option<string>>)
    requires n <= a.Length && n < 128
    modifies a
    ensures freed == Reverse(old(a[..n]))
    ensures setToNull ==> a[..] == seq(n, _ => None) + old(a[n..])
    ensures !setToNull ==> a[..] == old(a[..])
  {
    ghost var before := a[..];
    freed := [];
    var fields := n;
    while fields > 0
      invariant 0 <= fields <= n
      invariant freed == Reverse(before[fields..n])
      invariant setToNull ==> a[..] == before[..fields] + seq(n - fields, _ => None) + before[n..]
      invariant !setToNull ==> a[..] == before
    {
      fields := fields - 1;
      assert before[fields..n] == [before[fields]] + before[fields + 1..n];
      freed := freed + [a[fields]];
      if setToNull {
        a[fields] := None;
      }
    }
    assert before[..n] == before[0..n];
  }

  /** A loaded icon image with its GObject reference count. */
  class Pixbuf {
    var refCount: nat

    constructor ()
      ensures refCount == 1
    {
      refCount := 1;
    }
  }

  /** A pointer to an icon variable (`GdkPixbuf **`). */
  class IconSlot {
    var icon: Pixbuf?

    constructor (p: Pixbuf?)
      ensures icon == p
    {
      icon := p;
    }
  }

  /** `unref_icon`: nothing happens to an empty slot; otherwise one reference
      to the image is dropped and, when asked to, the slot is emptied. */
  method UnrefIcon(slot: IconSlot, setToNull: bool)
    requires slot.icon != null ==> slot.icon.refCount > 0
    modifies slot, slot.icon
    ensures old(slot.icon) == null ==> slot.icon == null
    ensures old(slot.icon) != null ==> old(slot.icon).refCount == old(slot.icon.refCount) - 1
    ensures slot.icon == (if setToNull then null else old(slot.icon))
  {
    if slot.icon != null {
      slot.icon.refCount := slot.icon.refCount - 1;
      if setToNull {
        slot.icon := null;
      }
    }
  }

  // ---------------------------------------------------------------------
  // Font size: the number at the end of the font name ("Sans 10").

  predicate IsDigit(c: char) {
    '0' <= c <= '9'
  }

  /** The start of the longest run of digits that ends the string: the match
      of `[0-9]+$`, which the regular expression engine finds at the leftmost
      position from which only digits follow. */
  function TrailingDigitsStart(s: string, j: nat): (k: nat)
    requires j <= |s|
    ensures k <= j
    ensures forall i :: k <= i < j ==> IsDigit(s[i])
    ensures k == 0 || !IsDigit(s[k - 1])
    decreases j
  {
    if j > 0 && IsDigit(s[j - 1]) then TrailingDigitsStart(s, j - 1) else j
  }

  /** The value of a run of decimal digits, as `atoi` reads it. */
  function DecimalValue(ds: string): nat
    decreases |ds|
  {
    if ds == [] then 0
    else 10 * DecimalValue(ds[..|ds| - 1]) + (if IsDigit(ds[|ds| - 1]) then ds[|ds| - 1] as nat - '0' as nat else 0)
  }

  /** `get_font_size`: the value of the trailing digits of the font name.  A
      name that does not end in a digit has no match, and the source then
      hands NULL to `atoi`. */
  function FontSize(fontName: string): (n: nat)
    requires fontName != [] && IsDigit(fontName[|fontName| - 1])
  {
    DecimalValue(fontName[TrailingDigitsStart(fontName, |fontName|)..])
  }

  /** The decimal rendering of `n`, without leading zeros. */
  function Digits(n: nat): (ds: string)
    ensures ds != [] && forall i :: 0 <= i < |ds| ==> IsDigit(ds[i])
  {
    if n < 10 then ["0123456789"[n]] else Digits(n / 10) + ["0123456789"[n % 10]]
  }

  lemma {:induction false} DecimalValueOfDigits(n: nat)
    ensures DecimalValue(Digits(n)) == n
  {
    var ds := Digits(n);
    if n >= 10 {
      DecimalValueOfDigits(n / 10);
      assert ds[..|ds| - 1] == Digits(n / 10);
    }
  }

  /** A font name made of a name that does not end in a digit, followed by a
      size, gives back that size. */
  lemma FontSizeOfName(name: string, size: nat)
    requires name == [] || !IsDigit(name[|name| - 1])
    ensures FontSize(name + Digits(size)) == size
  {
    FontSizeOfRun(name, Digits(size));
    DecimalValueOfDigits(size);
  }

  /** A run of digits after a name that does not end in one is read whole. */
  lemma FontSizeOfRun(name: string, ds: string)
    requires name == [] || !IsDigit(name[|name| - 1])
    requires ds != [] && forall i :: 0 <= i < |ds| ==> IsDigit(ds[i])
    ensures name + ds != [] && IsDigit((name + ds)[|name + ds| - 1])
    ensures FontSize(name + ds) == DecimalValue(ds)
  {
    var s := name + ds;
    forall i | |name| <= i < |s| ensures IsDigit(s[i]) {
      assert s[i] == ds[i - |name|];
    }
    TrailingStartAt(s, |s|, |name|);
    assert s[|name|..] == ds;
  }

  /** The run of trailing digits before `j` starts at `m` when all of
      `s[m..j]` are digits and the character before `m` is not. */
  lemma {:induction false} TrailingStartAt(s: string, j: nat, m: nat)
    requires m <= j <= |s| && forall i :: m <= i < j ==> IsDigit(s[i])
    requires m == 0 || !IsDigit(s[m - 1])
    ensures TrailingDigitsStart(s, j) == m
    decreases j
  {
    if j > m {
      TrailingStartAt(s, j - 1, m);
    }
  }

  // ---------------------------------------------------------------------
  // Window title and status bar.

  /** `g_path_get_basename`: "." for the empty name, "/" for a name made only
      of slashes, otherwise the last component with trailing slashes removed. */
  function Basename(path: string): (b: string)
  {
    if path == [] then "."
    else
      var last := StripSlashes(path, |path|);
      if last == 0 then "/" else path[LastSlash(path, last)..last]
  }

  /** The end of `path[..j]` with its trailing slashes dropped. */
  function StripSlashes(path: string, j: nat): (k: nat)
    requires j <= |path|
    ensures k <= j && (k == 0 || path[k - 1] != '/')
    ensures forall i :: k <= i < j ==> path[i] == '/'
    decreases j
  {
    if j > 0 && path[j - 1] == '/' then StripSlashes(path, j - 1) else j
  }

  /** The start of the last component of `path[..j]`. */
  function LastSlash(path: string, j: nat): (k: nat)
    requires j <= |path|
    ensures k <= j && (k == 0 || path[k - 1] == '/')
    ensures forall i :: k <= i < j ==> path[i] != '/'
    decreases j
  {
    if j > 0 && path[j - 1] != '/' then LastSlash(path, j - 1) else j
  }

  /** The basename of a file inside a directory is the file's own name. */
  lemma BasenameOfFile(dir: string, name: string)
    requires name != [] && forall i :: 0 <= i < |name| ==> name[i] != '/'
    ensures Basename(dir + "/" + name) == name
  {
    var p := dir + "/" + name;
    forall i | |dir| + 1 <= i < |p| ensures p[i] != '/' {
      assert p[i] == name[i - |dir| - 1];
    }
    assert p[|dir|] == '/';
    var last := StripSlashes(p, |p|);
    assert last == |p|;
    var k := LastSlash(p, last);
    assert k == |dir| + 1;
    assert p[k..last] == name;
  }

  /** The window title shown for a file. */
  function WindowTitle(filename: string): (t: string)
    ensures HasPrefix(t, "Kickshaw - ") && t[|"Kickshaw - "|..] == Basename(filename)
  {
    "Kickshaw - " + Basename(filename)
  }

  /** The text pushed onto the status bar: the message after one space. */
  function StatusText(message: string): (t: string)
    ensures |t| == |message| + 1 && t[0] == ' ' && t[1..] == message
  {
    " " + message
  }
}
