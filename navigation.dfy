/** The navigation bar's scroll handler: on every scroll event the bar gets a
    background once the page is scrolled past 50 pixels, and hides while the
    page is scrolling down past 200 pixels.  The only memory is the offset of
    the previous event. */
module Navigation {

  const Scrolled: string := "scrolled"
  const Hidden: string := "hidden"

  /** Offsets, in pixels, beyond which the classes apply. */
  const ScrolledThreshold := 50
  const HideThreshold := 200

  /** The class list of the bar and the remembered offset of the last event. */
  datatype NavState = NavState(classes: set<string>, lastScroll: int)

  /** One scroll event with the page at offset `currentScroll`. */
  function OnScroll(nav: NavState, currentScroll: int): (r: NavState)
    ensures Scrolled in r.classes <==> currentScroll > ScrolledThreshold
    ensures Hidden in r.classes <==> currentScroll > nav.lastScroll && currentScroll > HideThreshold
    ensures forall c :: c != Scrolled && c != Hidden ==> (c in r.classes <==> c in nav.classes)
    ensures r.lastScroll == currentScroll
  {
    var withBackground :=
      if currentScroll > ScrolledThreshold then nav.classes + {Scrolled} else nav.classes - {Scrolled};
    var withVisibility :=
      if currentScroll > nav.lastScroll && currentScroll > HideThreshold then withBackground + {Hidden}
      else withBackground - {Hidden};
    NavState(withVisibility, currentScroll)
  }

  /** A series of scroll events, in order. */
  function OnScrolls(nav: NavState, offsets: seq<int>): (r: NavState)
    ensures offsets == [] ==> r == nav
    decreases |offsets|
  {
    if offsets == [] then nav else OnScrolls(OnScroll(nav, offsets[0]), offsets[1..])
  }

  /** Handling the events of `a` and then those of `b` is handling `a + b`. */
  lemma {:induction false} OnScrollsSplit(nav: NavState, a: seq<int>, b: seq<int>)
    ensures OnScrolls(nav, a + b) == OnScrolls(OnScrolls(nav, a), b)
    decreases |a|
  {
    if a == [] {
      assert a + b == b;
    } else {
      assert (a + b)[1..] == a[1..] + b;
      OnScrollsSplit(OnScroll(nav, a[0]), a[1..], b);
    }
  }

  /** A hidden bar always has its background. */
  lemma HiddenImpliesScrolled(nav: NavState, currentScroll: int)
    ensures Hidden in OnScroll(nav, currentScroll).classes ==> Scrolled in OnScroll(nav, currentScroll).classes
  {
  }

  /** Scrolling up, or not moving, always shows the bar. */
  lemma NotScrollingDownShows(nav: NavState, currentScroll: int)
    requires currentScroll <= nav.lastScroll
    ensures Hidden !in OnScroll(nav, currentScroll).classes
  {
  }

  /** The handler's effect on the class list depends only on the previous and
      current offsets and on the classes it does not manage: the flags it set
      before are overwritten. */
  lemma FlagsForgotten(classes1: set<string>, classes2: set<string>, lastScroll: int, currentScroll: int)
    requires forall c :: c != Scrolled && c != Hidden ==> (c in classes1 <==> c in classes2)
    ensures OnScroll(NavState(classes1, lastScroll), currentScroll)
         == OnScroll(NavState(classes2, lastScroll), currentScroll)
  {
  }

  /** After a series of events, the bar reflects only the last two offsets:
      background iff the last offset is past 50, hidden iff the last offset is
      past 200 and greater than the one before (the installation offset 0 if
      there was only one event); every other class is as before. */
  lemma {:induction false} LastTwoOffsetsDecide(nav: NavState, offsets: seq<int>)
    requires offsets != []
    ensures var r := OnScrolls(nav, offsets);
            var last := offsets[|offsets| - 1];
            var before := if |offsets| == 1 then nav.lastScroll else offsets[|offsets| - 2];
            && r.lastScroll == last
            && (Scrolled in r.classes <==> last > ScrolledThreshold)
            && (Hidden in r.classes <==> last > before && last > HideThreshold)
            && (forall c :: c != Scrolled && c != Hidden ==> (c in r.classes <==> c in nav.classes))
    decreases |offsets|
  {
    var next := OnScroll(nav, offsets[0]);
    if |offsets| == 1 {
      assert OnScrolls(nav, offsets) == OnScrolls(next, []) == next;
    } else {
      LastTwoOffsetsDecide(next, offsets[1..]);
      assert offsets[1..][|offsets[1..]| - 1] == offsets[|offsets| - 1];
      assert |offsets[1..]| == 1 ==> next.lastScroll == offsets[|offsets| - 2];
      assert |offsets[1..]| > 1 ==> offsets[1..][|offsets[1..]| - 2] == offsets[|offsets| - 2];
    }
  }

  /** The navigation bar element and the handler's closed-over `lastScroll`. */
  class NavBar {
    var classes: set<string>
    var lastScroll: int

    ghost function State(): NavState
      reads this
    {
      NavState(classes, lastScroll)
    }

    /** `initNavigation` installing the scroll handler. */
    constructor (initialClasses: set<string>)
      ensures classes == initialClasses && lastScroll == 0
    {
      classes := initialClasses;
      lastScroll := 0;
    }

    /** The scroll listener. */
    method HandleScroll(currentScroll: int)
      modifies this
      ensures State() == OnScroll(old(State()), currentScroll)
    {
      if currentScroll > ScrolledThreshold {
        classes := classes + {Scrolled};
      } else {
        classes := classes - {Scrolled};
      }
      if currentScroll > lastScroll && currentScroll > HideThreshold {
        classes := classes + {Hidden};
      } else {
        classes := classes - {Hidden};
      }
      lastScroll := currentScroll;
    }
  }
}
