// The navigation bar: it marks itself `scrolled` once the page has moved,
// highlights the link of the section under the top of the viewport, and
// opens and closes the mobile menu.

module Navigation {

  datatype Option<T> = None | Some(value: T)

  /** A page section: its offsetTop, offsetHeight and id attribute. */
  datatype Section = Section(top: int, height: int, id: string)

  /** The point tested against the sections: 150 pixels below the top of the viewport. */
  function ScrollPosition(scrollY: real): real
  {
    scrollY + 150.0
  }

  /** The half-open interval test of `updateActiveNavLink`. */
  predicate Contains(s: Section, pos: real)
  {
    pos >= s.top as real && pos < (s.top + s.height) as real
  }

  /** The link flags one matching section writes: a link is active iff its href is "#" + id. */
  function FlagsFor(hrefs: seq<string>, id: string): (f: seq<bool>)
    ensures |f| == |hrefs|
    ensures forall k :: 0 <= k < |hrefs| ==> (f[k] <==> hrefs[k] == "#" + id)
  {
    seq(|hrefs|, k requires 0 <= k < |hrefs| => hrefs[k] == "#" + id)
  }

  /**
   * The link flags after visiting `sections` in document order, starting
   * from `flags`: every section that contains the position rewrites all of them.
   */
  function Scan(flags: seq<bool>, hrefs: seq<string>, sections: seq<Section>, pos: real): seq<bool>
    requires |flags| == |hrefs|
    decreases |sections|
  {
    if sections == [] then flags
    else
      var last := sections[|sections| - 1];
      if Contains(last, pos) then FlagsFor(hrefs, last.id)
      else Scan(flags, hrefs, sections[..|sections| - 1], pos)
  }

  /** The last section, in document order, that contains the position. */
  function LastMatch(sections: seq<Section>, pos: real): (r: Option<nat>)
    ensures r.Some? ==> r.value < |sections| && Contains(sections[r.value], pos)
    ensures r.Some? ==> forall j :: r.value < j < |sections| ==> !Contains(sections[j], pos)
    ensures r.None? ==> forall j :: 0 <= j < |sections| ==> !Contains(sections[j], pos)
  {
    if sections == [] then None
    else if Contains(sections[|sections| - 1], pos) then Some(|sections| - 1)
    else LastMatch(sections[..|sections| - 1], pos)
  }

  /**
   * The last match wins: after the scan a link is active iff its href names
   * the last section containing the position; when no section contains it,
   * no flag changes.
   */
  lemma {:induction false} ScanLastMatch(flags: seq<bool>, hrefs: seq<string>, sections: seq<Section>, pos: real)
    requires |flags| == |hrefs|
    ensures Scan(flags, hrefs, sections, pos) ==
      match LastMatch(sections, pos)
      case None => flags
      case Some(k) => FlagsFor(hrefs, sections[k].id)
  {
    if sections != [] && !Contains(sections[|sections| - 1], pos) {
      var init := sections[..|sections| - 1];
      ScanLastMatch(flags, hrefs, init, pos);
      match LastMatch(init, pos)
      case None =>
      case Some(k) => assert init[k] == sections[k];
    }
  }

  class Nav {
    /** The href attribute of each `.nav-link`. */
    const hrefs: seq<string>
    /** Whether each link has the class `active`. */
    var active: array<bool>
    /** Whether the navbar has the class `scrolled`. */
    var scrolled: bool
    /** Whether the menu toggle and the link container have the class `active`. */
    var toggleActive: bool
    var linksActive: bool
    /** The aria-expanded attribute of the menu toggle. */
    var ariaExpanded: bool

    ghost predicate Valid()
      reads this
    {
      active.Length == |hrefs| &&
      toggleActive == linksActive == ariaExpanded
    }

    /**
     * The constructor and `init`: the links start with the flags the page
     * gives them; when the navbar exists, the active link is computed once.
     */
    constructor (hasNavbar: bool, hrefs: seq<string>, initial: seq<bool>, scrollY: real, sections: seq<Section>)
      requires |initial| == |hrefs|
      ensures Valid() && fresh(active) && this.hrefs == hrefs
      ensures !scrolled && !toggleActive
      ensures !hasNavbar ==> active[..] == initial
      ensures hasNavbar ==> active[..] == Scan(initial, hrefs, sections, ScrollPosition(scrollY))
    {
      this.hrefs := hrefs;
      active := new bool[|hrefs|](k requires 0 <= k < |hrefs| => initial[k]);
      scrolled, toggleActive, linksActive, ariaExpanded := false, false, false, false;
      new;
      assert active[..] == initial;
      if hasNavbar {
        UpdateActiveNavLink(scrollY, sections);
      }
    }

    /** `updateActiveNavLink`, with the current offsets of the sections as input. */
    method UpdateActiveNavLink(scrollY: real, sections: seq<Section>)
      requires Valid()
      modifies active
      ensures active[..] == Scan(old(active[..]), hrefs, sections, ScrollPosition(scrollY))
    {
      var pos := scrollY + 150.0;
      for s := 0 to |sections|
        invariant active[..] == Scan(old(active[..]), hrefs, sections[..s], pos)
      {
        var section := sections[s];
        if pos >= section.top as real && pos < (section.top + section.height) as real {
          for k := 0 to active.Length
            invariant forall m :: 0 <= m < k ==> active[m] == (hrefs[m] == "#" + section.id)
          {
            active[k] := hrefs[k] == "#" + section.id;
          }
          assert active[..] == FlagsFor(hrefs, section.id);
        }
        assert sections[..s + 1][..s] == sections[..s];
      }
      assert sections[..|sections|] == sections;
    }

    /** `handleScroll`: the `scrolled` class and then the active link. */
    method HandleScroll(scrollY: real, sections: seq<Section>)
      requires Valid()
      modifies this, active
      ensures Valid() && active == old(active)
      ensures scrolled == (scrollY > 50.0)
      ensures active[..] == Scan(old(active[..]), hrefs, sections, ScrollPosition(scrollY))
      ensures toggleActive == old(toggleActive)
    {
      scrolled := scrollY > 50.0;
      UpdateActiveNavLink(scrollY, sections);
    }

    /** The menu button: both classes flip and aria-expanded follows the toggle's class. */
    method ToggleMobileMenu()
      requires Valid()
      modifies this
      ensures Valid() && active == old(active) && scrolled == old(scrolled)
      ensures toggleActive == !old(toggleActive) && ariaExpanded == toggleActive
    {
      toggleActive := !toggleActive;
      var isExpanded := toggleActive;
      linksActive := !linksActive;
      ariaExpanded := isExpanded;
    }

    /** A click on a link closes the menu, whatever state it was in. */
    method CloseMobileMenu()
      requires Valid()
      modifies this
      ensures Valid() && active == old(active) && scrolled == old(scrolled)
      ensures !toggleActive && !linksActive && !ariaExpanded
    {
      toggleActive := false;
      linksActive := false;
      ariaExpanded := false;
    }
  }

  /**
   * Example: sections at [0, 500) and [400, 900) with the viewport at 300
   * both contain the position 450; the later one, `about`, wins.
   */
  lemma OverlapExample()
    ensures Scan([true, false], ["#home", "#about"],
                 [Section(0, 500, "home"), Section(400, 500, "about")], ScrollPosition(300.0)) == [false, true]
  {
    ScanLastMatch([true, false], ["#home", "#about"],
                  [Section(0, 500, "home"), Section(400, 500, "about")], ScrollPosition(300.0));
  }
}
