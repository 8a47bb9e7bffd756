/** Page activation (`showPage`): the `.page` sections and `.nav-link`
    anchors of the document, each with its `active` class as a flag, and
    the mobile menu's open state. */
module Pages {
  import opened Text

  /** The element `getElementById(name)` finds among the pages: the first
      page whose id is `name`; none for the empty name, since an empty id
      attribute gives an element no id. */
  function PageLookup(ids: seq<string>, name: string): Option<nat> {
    if name == "" then None else IndexOf(ids, name)
  }

  /** The `active` flags `showPage(name)` leaves on the pages with ids `ids`:
      only the first page whose id is `name` is active, the element
      `getElementById(name)` finds when no other element of the document
      carries that id; when no page has it, or `name` is empty, no page is
      active. */
  function ShownPages(ids: seq<string>, name: string): (r: seq<bool>)
    ensures |r| == |ids|
    ensures forall i :: 0 <= i < |r| && r[i] ==> ids[i] == name
    ensures forall i, j :: 0 <= i < j < |r| ==> !(r[i] && r[j])
    ensures name != "" && name in ids <==> exists i :: 0 <= i < |r| && r[i]
    ensures forall i :: 0 <= i < |r| && ids[i] == name && name != "" && name !in ids[..i] ==> r[i]
  {
    var target := PageLookup(ids, name);
    var r := seq(|ids|, i requires 0 <= i < |ids| => target == Some(i));
    assert target.Some? ==> r[target.value];
    r
  }

  class PageView {
    /** The ids of the `.page` elements, in document order. */
    const ids: seq<string>
    /** Whether each page carries the `active` class. */
    const pageActive: array<bool>
    /** Whether each `.nav-link` carries the `active` class. */
    const linkActive: array<bool>
    /** Whether the collapsible mobile menu is shown. */
    var menuOpen: bool

    ghost predicate Valid()
      reads this
    {
      pageActive.Length == |ids| && pageActive != linkActive
    }

    /** The document as the markup delivers it. */
    constructor (ids: seq<string>, pages: seq<bool>, links: seq<bool>, menuOpen: bool)
      requires |pages| == |ids|
      ensures Valid() && fresh(pageActive) && fresh(linkActive)
      ensures this.ids == ids && pageActive[..] == pages && linkActive[..] == links
      ensures this.menuOpen == menuOpen
    {
      this.ids := ids;
      pageActive := new bool[|pages|](i requires 0 <= i < |pages| => pages[i]);
      linkActive := new bool[|links|](i requires 0 <= i < |links| => links[i]);
      this.menuOpen := menuOpen;
    }

    /** At most one page is active. */
    ghost predicate AtMostOneActive()
      reads this, pageActive
    {
      forall i, j :: 0 <= i < j < pageActive.Length ==> !(pageActive[i] && pageActive[j])
    }

    /** `showPage`: clears `active` on every page, activates the page whose id
        is `name` if there is one, clears `active` on every nav link, and
        closes the mobile menu. Nothing fails for an unknown name. */
    method ShowPage(name: string)
      requires Valid()
      modifies pageActive, linkActive, this`menuOpen
      ensures Valid()
      ensures pageActive[..] == ShownPages(ids, name)
      ensures AtMostOneActive()
      ensures forall k :: 0 <= k < linkActive.Length ==> !linkActive[k]
      ensures !menuOpen
    {
      var i := 0;
      while i < pageActive.Length
        invariant 0 <= i <= pageActive.Length
        invariant forall k :: 0 <= k < i ==> !pageActive[k]
      {
        pageActive[i] := false;
        i := i + 1;
      }
      var target := PageLookup(ids, name);
      if target.Some? {
        pageActive[target.value] := true;
      }
      assert pageActive[..] == ShownPages(ids, name);
      var j := 0;
      while j < linkActive.Length
        invariant 0 <= j <= linkActive.Length
        invariant forall k :: 0 <= k < j ==> !linkActive[k]
        invariant pageActive[..] == ShownPages(ids, name)
      {
        linkActive[j] := false;
        j := j + 1;
      }
      if menuOpen {
        menuOpen := false;
      }
    }
  }

  /** `showPage` is idempotent: on a document in exactly the state
      `showPage(name)` leaves, a second `showPage(name)` changes nothing. */
  method ShowPageAgain(view: PageView, name: string)
    requires view.Valid()
    requires view.pageActive[..] == ShownPages(view.ids, name)
    requires forall k :: 0 <= k < view.linkActive.Length ==> !view.linkActive[k]
    requires !view.menuOpen
    modifies view.pageActive, view.linkActive, view`menuOpen
    ensures view.pageActive[..] == old(view.pageActive[..])
    ensures view.linkActive[..] == old(view.linkActive[..])
    ensures view.menuOpen == old(view.menuOpen)
  {
    view.ShowPage(name);
  }
}
