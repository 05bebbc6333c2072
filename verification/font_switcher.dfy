/**
 * The heading-font preview panel: a fixed catalogue of fonts grouped by
 * category, a category filter, and keyboard navigation (down/`j`, up/`k`,
 * Escape) through the fonts of the active category, wrapping at both ends.
 *
 * The panel's functions take the catalogue as a parameter `fonts`; the page
 * always passes `Fonts`, and `CatalogueIsWellStocked` states the two facts
 * about that list the navigation relies on.
 */
module FontSwitcher {

  datatype Font = Font(name: string, category: string, weight: string)

  /** The catalogue, in display order. */
  const Fonts: seq<Font> := [
    Font("DM Serif Display", "Current", "400"),
    Font("Playfair Display", "Classic Serif", "700"),
    Font("Cormorant Garamond", "Classic Serif", "600"),
    Font("Libre Baskerville", "Classic Serif", "700"),
    Font("Crimson Pro", "Classic Serif", "600"),
    Font("EB Garamond", "Classic Serif", "600"),
    Font("Fraunces", "Modern Serif", "700"),
    Font("Instrument Serif", "Modern Serif", "400"),
    Font("Lora", "Modern Serif", "700"),
    Font("Spectral", "Modern Serif", "700"),
    Font("Zilla Slab", "Slab Serif", "700"),
    Font("Bitter", "Slab Serif", "700"),
    Font("Arvo", "Slab Serif", "700"),
    Font("Sora", "Geometric Sans", "700"),
    Font("Space Grotesk", "Geometric Sans", "700"),
    Font("Manrope", "Geometric Sans", "800"),
    Font("DM Sans", "Geometric Sans", "700"),
    Font("Bricolage Grotesque", "Humanist Sans", "700"),
    Font("Plus Jakarta Sans", "Humanist Sans", "700"),
    Font("Outfit", "Humanist Sans", "700"),
    Font("Archivo", "Humanist Sans", "700"),
    Font("Black Ops One", "Impact", "400"),
    Font("Oswald", "Impact", "700"),
    Font("Anton", "Impact", "400"),
    Font("Alfa Slab One", "Impact", "400"),
    Font("Pacifico", "Handwritten", "400"),
    Font("Dancing Script", "Handwritten", "700"),
    Font("Caveat", "Handwritten", "700"),
    Font("Satisfy", "Handwritten", "400"),
    Font("Kaushan Script", "Handwritten", "400"),
    Font("Shadows Into Light", "Handwritten", "400")
  ]

  /** The filter pills, "All" first. */
  const Categories: seq<string> := [
    "All", "Current", "Classic Serif", "Modern Serif", "Slab Serif",
    "Geometric Sans", "Humanist Sans", "Impact", "Handwritten"
  ]

  /** The panel's state: selected font (an index into the catalogue),
      whether the panel is open, and the active category. */
  datatype State = State(selected: int, isOpen: bool, category: string)

  /** On mount: "Lora" selected, panel open, all categories. */
  const Initial: State := State(8, true, "All")

  // ---------------------------------------------------------------------
  // The filtered list
  // ---------------------------------------------------------------------

  predicate Shown(fonts: seq<Font>, category: string, i: nat)
    requires i < |fonts|
  {
    category == "All" || fonts[i].category == category
  }

  /** The fonts of the active category as indices into the catalogue: the
      source filters the font objects and maps them back with
      `fonts.indexOf`. Exactly the shown indices, ascending. */
  function FilteredIndices(fonts: seq<Font>, category: string): (r: seq<nat>)
    ensures forall k :: 0 <= k < |r| ==> r[k] < |fonts| && Shown(fonts, category, r[k])
    ensures forall i :: 0 <= i < |fonts| && Shown(fonts, category, i) ==> i in r
    ensures forall k, l :: 0 <= k < l < |r| ==> r[k] < r[l]
  {
    ShownBelowFacts(fonts, category, |fonts|);
    ShownBelow(fonts, category, |fonts|)
  }

  function ShownBelow(fonts: seq<Font>, category: string, n: nat): seq<nat>
    requires n <= |fonts|
  {
    if n == 0 then []
    else ShownBelow(fonts, category, n - 1) + (if Shown(fonts, category, n - 1) then [n - 1] else [])
  }

  /** The shown indices below `n`, each once and ascending. */
  lemma {:induction false} ShownBelowFacts(fonts: seq<Font>, category: string, n: nat)
    requires n <= |fonts|
    ensures forall k :: 0 <= k < |ShownBelow(fonts, category, n)| ==>
      ShownBelow(fonts, category, n)[k] < n && Shown(fonts, category, ShownBelow(fonts, category, n)[k])
    ensures forall i :: 0 <= i < n && Shown(fonts, category, i) ==> i in ShownBelow(fonts, category, n)
    ensures forall k, l :: 0 <= k < l < |ShownBelow(fonts, category, n)| ==>
      ShownBelow(fonts, category, n)[k] < ShownBelow(fonts, category, n)[l]
  {
    if n > 0 {
      ShownBelowFacts(fonts, category, n - 1);
    }
  }

  /** `filtered.findIndex(f => f.name === fonts[selectedIndex].name)`. */
  function FindByName(fonts: seq<Font>, idx: seq<nat>, name: string): (r: int)
    requires forall k :: 0 <= k < |idx| ==> idx[k] < |fonts|
    ensures -1 <= r < |idx|
    ensures r >= 0 ==> fonts[idx[r]].name == name && forall k :: 0 <= k < r ==> fonts[idx[k]].name != name
    ensures r == -1 <==> forall k :: 0 <= k < |idx| ==> fonts[idx[k]].name != name
  {
    if idx == [] then -1
    else if fonts[idx[0]].name == name then 0
    else
      var k := FindByName(fonts, idx[1..], name);
      if k == -1 then -1 else k + 1
  }

  predicate UniqueNames(fonts: seq<Font>) {
    forall i, j :: 0 <= i < j < |fonts| ==> fonts[i].name != fonts[j].name
  }

  /** The states the panel can be in: a real font, a category offered by a
      pill, and at least one font in that category. */
  predicate Valid(fonts: seq<Font>, st: State) {
    && 0 <= st.selected < |fonts|
    && st.category in Categories
    && |FilteredIndices(fonts, st.category)| >= 1
  }

  // ---------------------------------------------------------------------
  // Wrapping arithmetic
  // ---------------------------------------------------------------------

  /** JavaScript's `%`: the remainder takes the sign of the dividend. A
      negative zero result indexes an array like 0, as it does here. */
  function JsRem(a: int, b: int): (r: int)
    requires b > 0
    ensures a >= 0 ==> r == a % b
    ensures a < 0 ==> r == -((-a) % b)
  {
    if a >= 0 then a % b else -((-a) % b)
  }

  /** `(current + 1) % len`: one further, back to the start after the end;
      from "not found" (-1), the start. */
  function NextPosition(current: int, len: nat): (r: nat)
    requires len >= 1 && -1 <= current < len
    ensures r == if current + 1 < len then current + 1 else 0
  {
    JsRem(current + 1, len)
  }

  /** `(current - 1 + len) % len`: one back, to the end before the start;
      from "not found" (-1), the second-to-last, or the only one. */
  function PreviousPosition(current: int, len: nat): (r: nat)
    requires len >= 1 && -1 <= current < len
    ensures current >= 0 ==> r == if current > 0 then current - 1 else len - 1
    ensures current == -1 ==> r == if len >= 2 then len - 2 else 0
  {
    var a := current - 1 + len;
    if a < 0 then
      assert JsRem(a, len) == 0;
      0
    else if a < len then
      assert a % len == a;
      JsRem(a, len)
    else
      assert a % len == a - len;
      JsRem(a, len)
  }

  // ---------------------------------------------------------------------
  // Events
  // ---------------------------------------------------------------------

  predicate IsDown(key: string) { key == "ArrowDown" || key == "j" }
  predicate IsUp(key: string) { key == "ArrowUp" || key == "k" }

  /**
   * The window key handler: down/`j` selects the next font of the active
   * category and up/`k` the previous one, both wrapping around; Escape
   * opens or closes the panel; every other key changes nothing. The
   * position of the current font is found by name, so a font outside the
   * category counts as position -1.
   */
  function HandleKey(fonts: seq<Font>, st: State, key: string): (r: State)
    requires Valid(fonts, st)
    ensures Valid(fonts, r)
    ensures r.category == st.category
    ensures IsDown(key) || IsUp(key) ==> r.isOpen == st.isOpen && Shown(fonts, st.category, r.selected)
    ensures !IsDown(key) && !IsUp(key) && key == "Escape" ==> r == st.(isOpen := !st.isOpen)
    ensures !IsDown(key) && !IsUp(key) && key != "Escape" ==> r == st
  {
    var filtered := FilteredIndices(fonts, st.category);
    var current := FindByName(fonts, filtered, fonts[st.selected].name);
    if IsDown(key) then
      st.(selected := filtered[NextPosition(current, |filtered|)])
    else if IsUp(key) then
      st.(selected := filtered[PreviousPosition(current, |filtered|)])
    else if key == "Escape" then
      st.(isOpen := !st.isOpen)
    else
      st
  }

  /** A pill click: the category changes, the selection stays. */
  function SelectCategory(st: State, category: string): (r: State)
    ensures r.category == category && r.selected == st.selected && r.isOpen == st.isOpen
  {
    st.(category := category)
  }

  /** A pill click keeps the selected font even when it is not in the new
      category; the next down key then moves into the category, to its first
      font when the selected one is not listed there. */
  lemma PillThenDown(fonts: seq<Font>, st: State, category: string)
    requires Valid(fonts, st) && UniqueNames(fonts)
    requires category in Categories && |FilteredIndices(fonts, category)| >= 1
    ensures var st2 := SelectCategory(st, category);
      && Valid(fonts, st2) && st2.selected == st.selected
      && Shown(fonts, category, HandleKey(fonts, st2, "ArrowDown").selected)
      && (!Shown(fonts, category, st.selected) ==>
            HandleKey(fonts, st2, "ArrowDown").selected == FilteredIndices(fonts, category)[0])
  {
    var st2 := SelectCategory(st, category);
    if !Shown(fonts, category, st.selected) {
      OutsideCategory(fonts, st2);
    }
  }


  /** A click on a listed font selects it. */
  function SelectFont(fonts: seq<Font>, st: State, k: nat): (r: State)
    requires Valid(fonts, st) && k < |FilteredIndices(fonts, st.category)|
    ensures Valid(fonts, r) && r.selected == FilteredIndices(fonts, st.category)[k]
    ensures r.category == st.category && r.isOpen == st.isOpen
  {
    st.(selected := FilteredIndices(fonts, st.category)[k])
  }

  /** The floating button opens or closes the panel. */
  function Toggle(st: State): (r: State)
    ensures r.isOpen != st.isOpen && r.selected == st.selected && r.category == st.category
  {
    st.(isOpen := !st.isOpen)
  }

  /** The count on a pill: every font for "All", else the fonts of that
      category. It is the length of the list the pill selects. */
  function PillCount(fonts: seq<Font>, category: string): (n: nat)
    ensures n == |FilteredIndices(fonts, category)|
    ensures category == "All" ==> n == |fonts|
  {
    if category == "All" then
      AllShowsAll(fonts);
      |fonts|
    else
      |FilteredIndices(fonts, category)|
  }

  /** Under "All" the list is every index of the catalogue, in order. */
  lemma AllShowsAll(fonts: seq<Font>)
    ensures var r := FilteredIndices(fonts, "All");
      |r| == |fonts| && forall k :: 0 <= k < |r| ==> r[k] == k
  {
    AllBelow(fonts, |fonts|);
  }

  lemma {:induction false} AllBelow(fonts: seq<Font>, n: nat)
    requires n <= |fonts|
    ensures var r := ShownBelow(fonts, "All", n);
      |r| == n && forall k :: 0 <= k < n ==> r[k] == k
  {
    if n > 0 {
      AllBelow(fonts, n - 1);
      var prev := ShownBelow(fonts, "All", n - 1);
      assert Shown(fonts, "All", n - 1);
      assert ShownBelow(fonts, "All", n) == prev + [n - 1];
    }
  }

  // ---------------------------------------------------------------------
  // Navigation
  // ---------------------------------------------------------------------

  /** With unique names, the position found by name is the selected font's
      own position, and -1 when it is not listed. */
  lemma FindsSelected(fonts: seq<Font>, st: State, p: nat)
    requires Valid(fonts, st) && UniqueNames(fonts)
    requires p < |FilteredIndices(fonts, st.category)| && FilteredIndices(fonts, st.category)[p] == st.selected
    ensures FindByName(fonts, FilteredIndices(fonts, st.category), fonts[st.selected].name) == p
  {
  }

  lemma MissesUnlisted(fonts: seq<Font>, st: State)
    requires Valid(fonts, st) && UniqueNames(fonts) && !Shown(fonts, st.category, st.selected)
    ensures FindByName(fonts, FilteredIndices(fonts, st.category), fonts[st.selected].name) == -1
  {
  }

  /** Down selects the next font of the category, wrapping to the first. */
  lemma DownSelectsNext(fonts: seq<Font>, st: State, key: string, p: nat)
    requires Valid(fonts, st) && UniqueNames(fonts) && IsDown(key)
    requires p < |FilteredIndices(fonts, st.category)| && FilteredIndices(fonts, st.category)[p] == st.selected
    ensures var idx := FilteredIndices(fonts, st.category);
      HandleKey(fonts, st, key).selected == if p + 1 < |idx| then idx[p + 1] else idx[0]
  {
    FindsSelected(fonts, st, p);
  }

  /** Up selects the previous font of the category, wrapping to the last. */
  lemma UpSelectsPrevious(fonts: seq<Font>, st: State, key: string, p: nat)
    requires Valid(fonts, st) && UniqueNames(fonts) && IsUp(key)
    requires p < |FilteredIndices(fonts, st.category)| && FilteredIndices(fonts, st.category)[p] == st.selected
    ensures var idx := FilteredIndices(fonts, st.category);
      HandleKey(fonts, st, key).selected == if p > 0 then idx[p - 1] else idx[|idx| - 1]
  {
    FindsSelected(fonts, st, p);
  }

  /** Down then up returns to the font the user started from. */
  lemma DownThenUpRestores(fonts: seq<Font>, st: State, p: nat)
    requires Valid(fonts, st) && UniqueNames(fonts)
    requires p < |FilteredIndices(fonts, st.category)| && FilteredIndices(fonts, st.category)[p] == st.selected
    ensures HandleKey(fonts, HandleKey(fonts, st, "j"), "k") == st
  {
    var idx := FilteredIndices(fonts, st.category);
    var down := HandleKey(fonts, st, "j");
    DownSelectsNext(fonts, st, "j", p);
    var q := if p + 1 < |idx| then p + 1 else 0;
    UpSelectsPrevious(fonts, down, "k", q);
  }

  /** Up then down returns to the font the user started from. */
  lemma UpThenDownRestores(fonts: seq<Font>, st: State, p: nat)
    requires Valid(fonts, st) && UniqueNames(fonts)
    requires p < |FilteredIndices(fonts, st.category)| && FilteredIndices(fonts, st.category)[p] == st.selected
    ensures HandleKey(fonts, HandleKey(fonts, st, "k"), "j") == st
  {
    var idx := FilteredIndices(fonts, st.category);
    var up := HandleKey(fonts, st, "k");
    UpSelectsPrevious(fonts, st, "k", p);
    var q := if p > 0 then p - 1 else |idx| - 1;
    DownSelectsNext(fonts, up, "j", q);
  }

  /**
   * When the selected font is not in the active category (the category was
   * changed after selecting), down selects the category's first font and
   * up its second-to-last (`(-1 - 1 + len) % len`), or its only font.
   */
  lemma OutsideCategory(fonts: seq<Font>, st: State)
    requires Valid(fonts, st) && UniqueNames(fonts) && !Shown(fonts, st.category, st.selected)
    ensures var idx := FilteredIndices(fonts, st.category);
      && HandleKey(fonts, st, "ArrowDown").selected == idx[0]
      && HandleKey(fonts, st, "ArrowUp").selected == idx[if |idx| >= 2 then |idx| - 2 else 0]
  {
    MissesUnlisted(fonts, st);
  }

  // ---------------------------------------------------------------------
  // The catalogue
  // ---------------------------------------------------------------------

  /** Font names are unique, so finding by name finds the font itself, and
      every pill selects at least one font, so navigation never divides by
      zero. */
  lemma CatalogueIsWellStocked()
    ensures UniqueNames(Fonts)
    ensures forall c :: c in Categories ==> |FilteredIndices(Fonts, c)| >= 1
  {
    forall i | 0 <= i < |Fonts| ensures forall j :: i < j < |Fonts| ==> Fonts[i].name != Fonts[j].name {
      NameUniqueAt(i);
    }
    forall c | c in Categories ensures |FilteredIndices(Fonts, c)| >= 1 {
      var k :| 0 <= k < |Categories| && Categories[k] == c;
      assert Witness(k) in FilteredIndices(Fonts, c);
    }
  }

  /** No later font shares the name of font `i`; the catalogue is checked
      in blocks of positions to keep each comparison set small. */
  lemma NameUniqueAt(i: nat)
    requires i < |Fonts|
    ensures forall j :: i < j < |Fonts| ==> Fonts[i].name != Fonts[j].name
  {
    if i < 3 {
      NameUniqueBlock1(i);
    } else if i < 6 {
      NameUniqueBlock2(i);
    } else if i < 10 {
      NameUniqueBlock3(i);
    } else if i < 15 {
      NameUniqueBlock4(i);
    } else if i < 21 {
      NameUniqueBlock5(i);
    } else {
      NameUniqueBlock6(i);
    }
  }

  // Six blocks rather than one lemma: comparing every pair of the 31 names
  // at once is beyond the solver's budget, so each block covers a few
  // positions against all later names.
  lemma NameUniqueBlock1(i: nat)
    requires i < 3
    ensures forall j :: i < j < |Fonts| ==> Fonts[i].name != Fonts[j].name
  {
  }

  lemma NameUniqueBlock2(i: nat)
    requires 3 <= i < 6
    ensures forall j :: i < j < |Fonts| ==> Fonts[i].name != Fonts[j].name
  {
  }

  lemma NameUniqueBlock3(i: nat)
    requires 6 <= i < 10
    ensures forall j :: i < j < |Fonts| ==> Fonts[i].name != Fonts[j].name
  {
  }

  lemma NameUniqueBlock4(i: nat)
    requires 10 <= i < 15
    ensures forall j :: i < j < |Fonts| ==> Fonts[i].name != Fonts[j].name
  {
  }

  lemma NameUniqueBlock5(i: nat)
    requires 15 <= i < 21
    ensures forall j :: i < j < |Fonts| ==> Fonts[i].name != Fonts[j].name
  {
  }

  lemma NameUniqueBlock6(i: nat)
    requires 21 <= i < |Fonts|
    ensures forall j :: i < j < |Fonts| ==> Fonts[i].name != Fonts[j].name
  {
  }

  /** A font of the `k`-th category (any font for "All"). */
  function Witness(k: nat): (i: nat)
    requires k < |Categories|
    ensures i < |Fonts| && Shown(Fonts, Categories[k], i)
  {
    [0, 0, 1, 6, 10, 13, 17, 21, 25][k]
  }

  /** Every reachable state is valid: the initial one ("Lora"), and whatever
      follows a key, a pill, a listed font or the toggle. */
  lemma EventsKeepValid(st: State, key: string, category: string, k: nat)
    requires Valid(Fonts, st)
    ensures Valid(Fonts, Initial) && Fonts[Initial.selected].name == "Lora"
    ensures Valid(Fonts, HandleKey(Fonts, st, key))
    ensures category in Categories ==> Valid(Fonts, SelectCategory(st, category))
    ensures k < |FilteredIndices(Fonts, st.category)| ==> Valid(Fonts, SelectFont(Fonts, st, k))
    ensures Valid(Fonts, Toggle(st))
  {
    CatalogueIsWellStocked();
  }
}
