/** The accordions of the report pages: each `.accordion` button opens and
    closes the panel that follows it, and turns its chevron icon to match. */
module Accordion {
  import opened Dom

  const Open: string := "block"
  const Closed: string := "none"
  /** The chevron class that marks an open panel. */
  const Rotated: string := "rotate-180"

  /** The site's test for an open panel: any display but `none`. */
  predicate IsOpen(display: string)
  {
    display != Closed
  }

  /** What one click does to a panel's display and its chevron's classes. */
  datatype State = State(display: string, chevron: set<string>)

  /** A panel that shows one of the two displays the script writes, with the
      chevron turned exactly when the panel is open. */
  predicate InStep(s: State)
  {
    (s.display == Open || s.display == Closed) && (Rotated in s.chevron) == IsOpen(s.display)
  }

  /** One click: an open panel closes, any other opens, and the chevron
      follows the new state; the chevron's other classes stay. */
  function Clicked(s: State): (r: State)
    ensures IsOpen(r.display) == !IsOpen(s.display)
    ensures InStep(r)
    ensures r.chevron - {Rotated} == s.chevron - {Rotated}
  {
    var isOpen := IsOpen(s.display);
    State(if isOpen then Closed else Open, ForceToken(s.chevron, Rotated, !isOpen))
  }

  /** Two clicks give back the display the script left, whatever the
      chevron; from a state in step they give back the whole state. */
  lemma ClickTwice(s: State)
    requires s.display == Open || s.display == Closed
    ensures Clicked(Clicked(s)).display == s.display
    ensures InStep(s) ==> Clicked(Clicked(s)) == s
  {
    var twice := Clicked(Clicked(s));
    if InStep(s) {
      assert (Rotated in twice.chevron) == (Rotated in s.chevron);
      assert twice.chevron - {Rotated} == s.chevron - {Rotated};
      assert twice.chevron == s.chevron by {
        if Rotated in s.chevron {
          assert twice.chevron == (twice.chevron - {Rotated}) + {Rotated};
          assert s.chevron == (s.chevron - {Rotated}) + {Rotated};
        } else {
          assert twice.chevron == twice.chevron - {Rotated};
          assert s.chevron == s.chevron - {Rotated};
        }
      }
    }
  }

  /** A button found by `.accordion`: the element after it and its `.chev`
      icon, either of which may be missing. */
  datatype Button = Button(panel: Panel?, chev: Chevron?)

  /** The click handler the script registers on a button that has both. */
  datatype Toggle = Toggle(panel: Panel, chev: Chevron)

  /** The handlers set up for `buttons`, in page order: one per button that
      has both a panel and a chevron. */
  function Wired(buttons: seq<Button>): (handlers: seq<Toggle>)
    ensures |handlers| <= |buttons|
  {
    if buttons == [] then []
    else
      var b := buttons[|buttons| - 1];
      var earlier := Wired(buttons[..|buttons| - 1]);
      assert buttons == buttons[..|buttons| - 1] + [b];
      if b.panel != null && b.chev != null then earlier + [Toggle(b.panel, b.chev)] else earlier
  }

  /** A handler is registered for a panel and a chevron exactly when some
      button has that panel and that chevron. */
  lemma {:induction false} WiredMembers(buttons: seq<Button>, panel: Panel, chev: Chevron)
    ensures Toggle(panel, chev) in Wired(buttons) <==> Button(panel, chev) in buttons
  {
    if buttons != [] {
      var init := buttons[..|buttons| - 1];
      assert buttons == init + [buttons[|buttons| - 1]];
      WiredMembers(init, panel, chev);
    }
  }

  /** The setup loop: every panel of a complete button is shown; a button
      missing either part is left untouched and gets no handler. Distinct
      buttons have distinct next siblings, so their panels differ. */
  method SetUp(buttons: seq<Button>) returns (handlers: seq<Toggle>)
    requires forall i, j :: 0 <= i < j < |buttons| && buttons[i].panel != null ==>
      buttons[i].panel != buttons[j].panel
    modifies set b | b in buttons && b.panel != null :: b.panel
    ensures handlers == Wired(buttons)
    ensures forall i :: 0 <= i < |buttons| && buttons[i].panel != null ==>
      buttons[i].panel.display == if buttons[i].chev != null then Open else old(buttons[i].panel.display)
  {
    handlers := [];
    for i := 0 to |buttons|
      invariant handlers == Wired(buttons[..i])
      invariant forall k :: 0 <= k < i && buttons[k].panel != null ==>
        buttons[k].panel.display == if buttons[k].chev != null then Open else old(buttons[k].panel.display)
      invariant forall k :: i <= k < |buttons| && buttons[k].panel != null ==>
        buttons[k].panel.display == old(buttons[k].panel.display)
    {
      var btn := buttons[i];
      assert buttons[..i + 1][..i] == buttons[..i];
      if btn.panel != null && btn.chev != null {
        btn.panel.display := Open;
        handlers := handlers + [Toggle(btn.panel, btn.chev)];
      }
    }
    assert buttons[..|buttons|] == buttons;
  }

  /** The click handler: flips the panel and forces the chevron's class to
      the panel's new state. */
  method Click(t: Toggle)
    modifies t.panel, t.chev
    ensures State(t.panel.display, t.chev.classes) == Clicked(State(old(t.panel.display), old(t.chev.classes)))
    ensures (Rotated in t.chev.classes) == IsOpen(t.panel.display)
  {
    var isOpen := t.panel.display != Closed;
    t.panel.display := if isOpen then Closed else Open;
    t.chev.classes := ForceToken(t.chev.classes, Rotated, !isOpen);
  }
}
