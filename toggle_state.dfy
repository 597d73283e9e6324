/**
 * The state of one check button as a value, and what each setter of
 * `gtk/gtkcheckbutton.c` does to it.
 *
 * The toolkit's side effects that the button's own code can observe are kept:
 * the property notifications and the `toggled` signal (appended, in emission
 * order, to the button's `log`), the accessible "checked" tristate last pushed
 * to the accessibility layer, and the CSS name of the indicator node.
 */
module ToggleState {

  /** The accessible "checked" state (`GTK_ACCESSIBLE_TRISTATE_*`). */
  datatype Tristate = False | True | Mixed

  /** The CSS name of the indicator node, or no indicator (after dispose). */
  datatype Indicator = NoIndicator | Check | Radio

  /** The properties of the button that are notified on change. */
  datatype Property = Active | Group | Label | DrawIndicator | Inconsistent | UseUnderline

  /** An emission on the button: a property notification or the `toggled` signal. */
  datatype Signal = Notify(property: Property) | Toggled

  datatype ButtonState = ButtonState(
    active: bool,
    inconsistent: bool,
    drawIndicator: bool,
    useUnderline: bool,
    accessible: Tristate,
    indicator: Indicator,
    labelText: string,
    log: seq<Signal>)

  /**
   * The tristate `update_accessible_state` pushes: mixed whenever the button
   * is inconsistent, otherwise whether it is active.
   */
  function AccessibleState(inconsistent: bool, active: bool): (t: Tristate)
    ensures t == Mixed <==> inconsistent
    ensures t == True <==> !inconsistent && active
    ensures t == False <==> !inconsistent && !active
  {
    if inconsistent then Mixed
    else if active then True
    else False
  }

  /**
   * A freshly initialised button: the indicator is drawn and named "check",
   * the label is empty, every other flag is off, and the accessible state has
   * been pushed once.
   */
  const Initial: ButtonState :=
    ButtonState(false, false, true, false, AccessibleState(false, false), Check, "", [])

  /**
   * The indicator's CSS name after a rename guarded by "the indicator still
   * exists": a button whose indicator has been removed keeps none.
   */
  function Renamed(current: Indicator, name: Indicator): (r: Indicator)
    requires name != NoIndicator
    ensures r == NoIndicator <==> current == NoIndicator
    ensures r != NoIndicator ==> r == name
  {
    if current == NoIndicator then NoIndicator else name
  }

  /** The part of the state that only the notify log and the accessible state leave out. */
  predicate SameFlags(a: ButtonState, b: ButtonState)
  {
    a.inconsistent == b.inconsistent && a.drawIndicator == b.drawIndicator &&
    a.useUnderline == b.useUnderline && a.indicator == b.indicator && a.labelText == b.labelText
  }

  /**
   * `gtk_check_button_set_active` on one button, leaving out the group walk:
   * nothing at all when the value is unchanged; otherwise the accessible state
   * is pushed while `active` still holds the OLD value, then `active` is
   * assigned and `notify::active` and `toggled` are emitted.
   */
  function AfterSetActive(b: ButtonState, setting: bool): (r: ButtonState)
    ensures r.active == setting
    ensures r == b <==> setting == b.active
    ensures setting != b.active ==> r.log == b.log + [Notify(Active), Toggled]
    ensures setting != b.active ==> r.accessible == AccessibleState(b.inconsistent, !setting)
    ensures SameFlags(r, b)
  {
    if setting == b.active then b
    else b.(accessible := AccessibleState(b.inconsistent, b.active), active := setting,
            log := b.log + [Notify(Active), Toggled])
  }

  /** The forward walk of a grouped activation: `set_active(FALSE)` on each member, first to last. */
  function DeactivateAll(s: seq<ButtonState>): (r: seq<ButtonState>)
    ensures |r| == |s|
    ensures forall i :: 0 <= i < |s| ==> r[i] == AfterSetActive(s[i], false)
  {
    seq(|s|, i requires 0 <= i < |s| => AfterSetActive(s[i], false))
  }

  /** One more step of the forward walk: member `j` is switched off next. */
  lemma DeactivateOneMore(s: seq<ButtonState>, j: nat)
    requires j < |s|
    ensures var t := DeactivateAll(s[..j]) + s[j..];
      GroupAfterSetActive(t, j, false) == DeactivateAll(s[..j + 1]) + s[j + 1..]
  {
    var t := DeactivateAll(s[..j]) + s[j..];
    assert t[j] == s[j];
  }

  /**
   * The states of a whole group, first member to last, after
   * `gtk_check_button_set_active` on its member `k`.  A group of one is an
   * ungrouped button.  Activating a member of a larger group first
   * deactivates every member, then activates member `k`.
   */
  function GroupAfterSetActive(s: seq<ButtonState>, k: nat, setting: bool): (r: seq<ButtonState>)
    requires k < |s|
    ensures |r| == |s|
    // the target gets exactly the single-button effect, whatever the case
    ensures r[k] == AfterSetActive(s[k], setting)
    // unchanged value: nothing happens anywhere
    ensures setting == s[k].active ==> r == s
    // deactivating, or activating an ungrouped button: no other button is touched
    ensures !setting || |s| == 1 ==> forall i :: 0 <= i < |s| && i != k ==> r[i] == s[i]
    // activating a grouped button: every other member is switched off as by set_active(FALSE)
    ensures setting && setting != s[k].active ==>
      forall i :: 0 <= i < |s| && i != k ==> r[i] == AfterSetActive(s[i], false)
  {
    if setting == s[k].active then s
    else if setting && |s| > 1 then
      var d := DeactivateAll(s);
      d[k := AfterSetActive(d[k], true)]
    else s[k := AfterSetActive(s[k], setting)]
  }

  /**
   * The order of the work in `gtk_check_button_set_active`: the walk over the
   * group (only when a grouped button is activated), then the single-button
   * effect on member `k`.
   */
  lemma SetActiveSteps(s: seq<ButtonState>, k: nat, setting: bool)
    requires k < |s| && setting != s[k].active
    ensures var w := if setting && |s| > 1 then DeactivateAll(s) else s;
      GroupAfterSetActive(s, k, setting) == w[k := AfterSetActive(w[k], setting)]
  {
  }

  /** At most one member of the group is active. */
  predicate AtMostOneActive(s: seq<ButtonState>)
  {
    forall i, j :: 0 <= i < |s| && 0 <= j < |s| && s[i].active && s[j].active ==> i == j
  }

  /**
   * Radio behaviour: `set_active` on any member, with any value, keeps a group
   * in which at most one member is active in that shape, and activating a
   * member leaves it the only active one.
   */
  lemma SetActiveKeepsAtMostOne(s: seq<ButtonState>, k: nat, setting: bool)
    requires k < |s| && AtMostOneActive(s)
    ensures var r := GroupAfterSetActive(s, k, setting);
      AtMostOneActive(r) && (setting ==> forall i :: 0 <= i < |r| && r[i].active ==> i == k)
  {
    var r := GroupAfterSetActive(s, k, setting);
    if setting && setting == s[k].active {
      assert r == s;
    }
  }

  /**
   * Membership changes never touch `active`.  Inserting a button `x` at
   * position `k` of a group keeps "at most one active" exactly when the group
   * had that property and, if `x` is active, no member of it was active.
   */
  lemma {:induction false} JoinAtMostOne(s: seq<ButtonState>, k: nat, x: ButtonState)
    requires k <= |s|
    ensures AtMostOneActive(s[..k] + [x] + s[k..]) <==>
      AtMostOneActive(s) && (x.active ==> forall i :: 0 <= i < |s| ==> !s[i].active)
  {
    var t := s[..k] + [x] + s[k..];
    assert forall i :: 0 <= i < |t| ==> t[i] == if i < k then s[i] else if i == k then x else s[i - 1];
    // position of member `i` of `s` in `t`
    var pos := (i: int) => if i < k then i else i + 1;
    if AtMostOneActive(t) {
      forall i, j | 0 <= i < |s| && 0 <= j < |s| && s[i].active && s[j].active
        ensures i == j
      {
        assert t[pos(i)] == s[i] && t[pos(j)] == s[j];
      }
      if x.active {
        forall i | 0 <= i < |s|
          ensures !s[i].active
        {
          assert t[pos(i)] == s[i] && t[k] == x;
        }
      }
    }
  }

  /** An active button joining a group that already has an active member breaks "at most one active". */
  lemma ActiveJoinBreaks(s: seq<ButtonState>, k: nat, x: ButtonState, j: nat)
    requires k <= |s| && j < |s| && s[j].active && x.active
    ensures !AtMostOneActive(s[..k] + [x] + s[k..])
  {
    JoinAtMostOne(s, k, x);
  }

  /** Removing a member keeps "at most one active" for the rest of the group. */
  lemma {:induction false} LeaveKeepsAtMostOne(s: seq<ButtonState>, k: nat)
    requires k < |s| && AtMostOneActive(s)
    ensures AtMostOneActive(s[..k] + s[k + 1..])
  {
    var t := s[..k] + s[k + 1..];
    forall i, j | 0 <= i < |t| && 0 <= j < |t| && t[i].active && t[j].active
      ensures i == j
    {
      var i', j' := if i < k then i else i + 1, if j < k then j else j + 1;
      assert t[i] == s[i'] && t[j] == s[j'];
    }
  }

  /** Setting the value a second time changes nothing and emits nothing. */
  lemma SetActiveIdempotent(s: seq<ButtonState>, k: nat, setting: bool)
    requires k < |s|
    ensures var r := GroupAfterSetActive(s, k, setting);
      GroupAfterSetActive(r, k, setting) == r
  {
  }

  /**
   * `gtk_check_button_set_inconsistent`: on a change the flag is assigned, the
   * accessible state is pushed with the NEW value, and `notify::inconsistent`
   * is emitted; otherwise nothing happens.  `active` is never touched.
   */
  function AfterSetInconsistent(b: ButtonState, inconsistent: bool): (r: ButtonState)
    ensures r.inconsistent == inconsistent
    ensures r == b <==> inconsistent == b.inconsistent
    ensures inconsistent != b.inconsistent ==>
      r.log == b.log + [Notify(Inconsistent)] && r.accessible == AccessibleState(inconsistent, b.active)
    ensures r.active == b.active && r.drawIndicator == b.drawIndicator && r.useUnderline == b.useUnderline
    ensures r.indicator == b.indicator && r.labelText == b.labelText
  {
    if inconsistent == b.inconsistent then b
    else b.(inconsistent := inconsistent, accessible := AccessibleState(inconsistent, b.active),
            log := b.log + [Notify(Inconsistent)])
  }

  /**
   * `gtk_check_button_set_draw_indicator`: on a change the flag is assigned and
   * `notify::draw-indicator` is emitted; otherwise nothing happens.
   */
  function AfterSetDrawIndicator(b: ButtonState, drawIndicator: bool): (r: ButtonState)
    ensures r.drawIndicator == drawIndicator
    ensures r == b <==> drawIndicator == b.drawIndicator
    ensures drawIndicator != b.drawIndicator ==> r.log == b.log + [Notify(DrawIndicator)]
    ensures r.active == b.active && r.inconsistent == b.inconsistent && r.useUnderline == b.useUnderline
    ensures r.accessible == b.accessible && r.indicator == b.indicator && r.labelText == b.labelText
  {
    if drawIndicator == b.drawIndicator then b
    else b.(drawIndicator := drawIndicator, log := b.log + [Notify(DrawIndicator)])
  }

  /**
   * `gtk_check_button_set_use_underline`: on a change the flag is assigned and
   * `notify::use-underline` is emitted; otherwise nothing happens.
   */
  function AfterSetUseUnderline(b: ButtonState, useUnderline: bool): (r: ButtonState)
    ensures r.useUnderline == useUnderline
    ensures r == b <==> useUnderline == b.useUnderline
    ensures useUnderline != b.useUnderline ==> r.log == b.log + [Notify(UseUnderline)]
    ensures r.active == b.active && r.inconsistent == b.inconsistent && r.drawIndicator == b.drawIndicator
    ensures r.accessible == b.accessible && r.indicator == b.indicator && r.labelText == b.labelText
  {
    if useUnderline == b.useUnderline then b
    else b.(useUnderline := useUnderline, log := b.log + [Notify(UseUnderline)])
  }

  /**
   * `gtk_check_button_set_label`: the label text is replaced and
   * `notify::label` is emitted even when the text is the same.
   */
  function AfterSetLabel(b: ButtonState, labelText: string): (r: ButtonState)
    ensures r.labelText == labelText
    ensures r.log == b.log + [Notify(Label)]
    ensures r.active == b.active && r.inconsistent == b.inconsistent && r.drawIndicator == b.drawIndicator
    ensures r.useUnderline == b.useUnderline && r.accessible == b.accessible && r.indicator == b.indicator
  {
    b.(labelText := labelText, log := b.log + [Notify(Label)])
  }
}
