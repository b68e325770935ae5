/**
 * The mobile menu (src/components/MobileSidebar.tsx): a slide-in posts menu
 * and a theme panel, opened and closed by their buttons, by clicks outside
 * them, and (for the menu) by horizontal swipes of more than 50 pixels.
 */
module MobileSidebar {
  import opened Wrappers

  /** The swipe distance a touch must exceed to count. */
  const SwipeThreshold: int := 50

  /** JavaScript truthiness of a `number | null` touch point: `null` and `0` are falsy. */
  predicate Truthy(x: Option<int>) {
    x.Some? && x.value != 0
  }

  /**
   * Whether the menu is open after a swipe of `distance` (start minus end)
   * pixels: a left swipe opens a closed menu, a right swipe closes an open
   * one, anything shorter leaves it as it was.
   */
  function AfterSwipe(distance: int, open: bool): (r: bool)
    ensures -SwipeThreshold <= distance <= SwipeThreshold ==> r == open
    ensures distance > SwipeThreshold ==> r
    ensures distance < -SwipeThreshold ==> !r
    ensures r != open ==> (!open && distance > SwipeThreshold) || (open && distance < -SwipeThreshold)
  {
    var isLeftSwipe := distance > SwipeThreshold;
    var isRightSwipe := distance < -SwipeThreshold;
    if isLeftSwipe && !open then true
    else if isRightSwipe && open then false
    else open
  }

  /** Where a `mousedown` lands, relative to the two panels and their buttons. */
  datatype ClickTarget = ClickTarget(inMenu: bool, onMenuButton: bool, inThemeMenu: bool, onThemeButton: bool)

  /** A click closes a panel when it lands neither in the panel nor on the panel's button. */
  predicate Closes(inPanel: bool, onButton: bool) {
    !inPanel && !onButton
  }

  class Sidebar {
    var isMenuOpen: bool
    var isThemeMenuOpen: bool
    var touchStart: Option<int>
    var touchEnd: Option<int>

    /** Both panels closed, no touch recorded. */
    constructor ()
      ensures !isMenuOpen && !isThemeMenuOpen
      ensures touchStart.None? && touchEnd.None?
    {
      isMenuOpen, isThemeMenuOpen := false, false;
      touchStart, touchEnd := None, None;
    }

    /** `touchstart`: remember where the finger went down. */
    method TouchStart(clientX: int)
      modifies this
      ensures touchStart == Some(clientX)
      ensures touchEnd == old(touchEnd)
      ensures isMenuOpen == old(isMenuOpen) && isThemeMenuOpen == old(isThemeMenuOpen)
    {
      touchStart := Some(clientX);
    }

    /** `touchmove`: remember where the finger is now. */
    method TouchMove(clientX: int)
      modifies this
      ensures touchEnd == Some(clientX)
      ensures touchStart == old(touchStart)
      ensures isMenuOpen == old(isMenuOpen) && isThemeMenuOpen == old(isThemeMenuOpen)
    {
      touchEnd := Some(clientX);
    }

    /**
     * `touchend`: when both points are truthy, apply the swipe rule and
     * forget both points; otherwise do nothing at all.
     */
    method TouchEnd()
      modifies this
      ensures !(Truthy(old(touchStart)) && Truthy(old(touchEnd))) ==>
        isMenuOpen == old(isMenuOpen) && touchStart == old(touchStart) && touchEnd == old(touchEnd)
      ensures Truthy(old(touchStart)) && Truthy(old(touchEnd)) ==>
        isMenuOpen == AfterSwipe(old(touchStart).value - old(touchEnd).value, old(isMenuOpen)) &&
        touchStart.None? && touchEnd.None?
      ensures isThemeMenuOpen == old(isThemeMenuOpen)
    {
      if !Truthy(touchStart) || !Truthy(touchEnd) {
        return;
      }
      var distance := touchStart.value - touchEnd.value;
      isMenuOpen := AfterSwipe(distance, isMenuOpen);
      touchStart, touchEnd := None, None;
    }

    /** The menu button. */
    method ToggleMenu()
      modifies this
      ensures isMenuOpen == !old(isMenuOpen)
      ensures isThemeMenuOpen == old(isThemeMenuOpen)
      ensures touchStart == old(touchStart) && touchEnd == old(touchEnd)
    {
      isMenuOpen := !isMenuOpen;
    }

    /** The theme button. */
    method ToggleThemeMenu()
      modifies this
      ensures isThemeMenuOpen == !old(isThemeMenuOpen)
      ensures isMenuOpen == old(isMenuOpen)
      ensures touchStart == old(touchStart) && touchEnd == old(touchEnd)
    {
      isThemeMenuOpen := !isThemeMenuOpen;
    }

    /** The menu's close button and each post link in the menu. */
    method CloseMenu()
      modifies this
      ensures !isMenuOpen
      ensures isThemeMenuOpen == old(isThemeMenuOpen)
      ensures touchStart == old(touchStart) && touchEnd == old(touchEnd)
    {
      isMenuOpen := false;
    }

    /** `mousedown` anywhere: each panel closes when the click is outside it and off its button. */
    method MouseDown(target: ClickTarget)
      modifies this
      ensures isMenuOpen == (old(isMenuOpen) && !Closes(target.inMenu, target.onMenuButton))
      ensures isThemeMenuOpen == (old(isThemeMenuOpen) && !Closes(target.inThemeMenu, target.onThemeButton))
      ensures touchStart == old(touchStart) && touchEnd == old(touchEnd)
    {
      if Closes(target.inMenu, target.onMenuButton) {
        isMenuOpen := false;
      }
      if Closes(target.inThemeMenu, target.onThemeButton) {
        isThemeMenuOpen := false;
      }
    }
  }
}
