/**
 * `GtkCheckButton` as an object whose fields are those of its private
 * structure, and the operations of `gtk/gtkcheckbutton.c` that change them.
 *
 * Every method is specified by the pure functions of `ToggleState` (what
 * happens to the flags, the accessible state, the indicator name and the
 * emissions) and of `GroupLinks` (what happens to the peer links).  The radio
 * group a button belongs to is named by a ghost list `g` of its members, first
 * to last; `IsGroup(g)` says the heap links really form that list.
 */
module CheckButtons {
  import opened GroupLinks
  import opened ToggleState

  class CheckButton {
    var drawIndicator: bool
    var inconsistent: bool
    var active: bool
    var useUnderline: bool

    var groupNext: CheckButton?
    var groupPrev: CheckButton?

    /** CSS name of the indicator child node. */
    var indicator: Indicator
    /** The checked state last pushed to the accessibility layer. */
    var accessible: Tristate
    /** Text of the label child. */
    var labelText: string
    /** Notifications and `toggled` emissions on this button, oldest first. */
    var log: seq<Signal>

    /** Everything but the links, as a value. */
    function State(): ButtonState
      reads this`active, this`inconsistent, this`drawIndicator, this`useUnderline
      reads this`accessible, this`indicator, this`labelText, this`log
    {
      ButtonState(active, inconsistent, drawIndicator, useUnderline, accessible, indicator, labelText, log)
    }

    ghost function Links(): Link<CheckButton>
      reads this`groupPrev, this`groupNext
    {
      Link(Opt(groupPrev), Opt(groupNext))
    }

    /** `gtk_check_button_init`: indicator drawn and named "check", no group, accessible state pushed. */
    constructor ()
      ensures State() == Initial
      ensures groupNext == null && groupPrev == null
    {
      drawIndicator := true;
      inconsistent := false;
      active := false;
      useUnderline := false;
      groupNext := null;
      groupPrev := null;
      indicator := Check;
      labelText := "";
      log := [];
      new;
      UpdateAccessibleState();
    }

    /** `update_accessible_state`: push the tristate of the current flags. */
    method UpdateAccessibleState()
      modifies this`accessible
      ensures accessible == AccessibleState(inconsistent, active)
    {
      if inconsistent {
        accessible := Mixed;
      } else if active {
        accessible := True;
      } else {
        accessible := False;
      }
    }

    method GetActive() returns (r: bool)
      ensures r == active
    {
      r := active;
    }

    method GetInconsistent() returns (r: bool)
      ensures r == inconsistent
    {
      r := inconsistent;
    }

    method GetDrawIndicator() returns (r: bool)
      ensures r == drawIndicator
    {
      r := drawIndicator;
    }

    method GetUseUnderline() returns (r: bool)
      ensures r == useUnderline
    {
      r := useUnderline;
    }

    method GetLabel() returns (r: string)
      ensures r == labelText
    {
      r := labelText;
    }

    method GetGroupNext() returns (r: CheckButton?)
      ensures r == groupNext
    {
      r := groupNext;
    }

    method GetGroupPrev() returns (r: CheckButton?)
      ensures r == groupPrev
    {
      r := groupPrev;
    }

    /**
     * `gtk_check_button_set_active`.  Unchanged value: return at once.
     * Otherwise, when a grouped button is activated, every member of its group
     * is first switched off with `set_active(FALSE)`; then the accessible state
     * is pushed (still with the old value), `active` assigned, and
     * `notify::active` and `toggled` emitted.
     */
    method SetActive(setting: bool, ghost g: seq<CheckButton>, ghost k: nat)
      requires IsGroup(g) && k < |g| && g[k] == this
      modifies Members(g)`accessible, Members(g)`active, Members(g)`log
      decreases if setting then 3 else 0
      ensures LinksOf(Members(g)) == old(LinksOf(Members(g)))
      ensures States(g) == GroupAfterSetActive(old(States(g)), k, setting)
    {
      ghost var m, s0 := LinksOf(Members(g)), States(g);
      assert g[k] in Members(g) && m[g[k]] == Links();
      AloneIffSingleton(m, g, k);
      if setting == active {
        assert s0[k].active == setting;
        return;
      }
      ghost var s1 := s0;
      if setting && (groupPrev != null || groupNext != null) {
        var groupFirst := FirstInGroup(g, k);
        DeactivateGroup(groupFirst, g);
        s1 := DeactivateAll(s0);
      }
      assert LinksOf(Members(g)) == m;
      assert States(g) == s1 && s1 == if setting && |g| > 1 then DeactivateAll(s0) else s0;
      assert forall i :: 0 <= i < |g| && i != k ==> g[i] != this;
      assert s1[k] == State();
      SetActiveSteps(s0, k, setting);
      Toggle(setting, g, k);
      assert LinksOf(Members(g)) == m;
    }

    /**
     * The tail of `gtk_check_button_set_active`: push the accessible state
     * (with the old value), assign `active`, emit `notify::active` and
     * `toggled`.  Only member `k` of the group changes.
     */
    method Toggle(setting: bool, ghost g: seq<CheckButton>, ghost k: nat)
      requires k < |g| && g[k] == this && setting != active
      requires forall i :: 0 <= i < |g| && i != k ==> g[i] != this
      modifies this`accessible, this`active, this`log
      ensures LinksOf(Members(g)) == old(LinksOf(Members(g)))
      ensures States(g) == old(States(g))[k := AfterSetActive(old(State()), setting)]
    {
      UpdateAccessibleState();
      active := setting;
      log := log + [Notify(Active), Toggled];
      LinksKept(Members(g));
    }

    /**
     * The first loop of `gtk_check_button_set_active`: follow the `prev` links
     * from this button to the first member of its group.
     */
    method FirstInGroup(ghost g: seq<CheckButton>, ghost k: nat) returns (groupFirst: CheckButton)
      requires IsGroup(g) && k < |g| && g[k] == this
      ensures groupFirst == g[0]
    {
      ghost var m := LinksOf(Members(g));
      var first: CheckButton? := null;
      var iter: CheckButton? := this;
      ghost var i: int := k;
      while iter != null
        invariant iter != null ==> 0 <= i < |g| && iter == g[i]
        invariant iter == null ==> first == g[0]
        decreases if iter == null then 0 else i + 1
      {
        first := iter;
        ChainAt(m, g, i);
        assert g[i] in Members(g) && m[g[i]] == g[i].Links();
        iter := iter.groupPrev;
        if iter == null {
          break;
        }
        i := i - 1;
      }
      assert first != null;
      groupFirst := first;
    }

    /** `click_released_cb`: a click flips `active`, through `set_active`. */
    method ClickReleased(ghost g: seq<CheckButton>, ghost k: nat)
      requires IsGroup(g) && k < |g| && g[k] == this
      modifies Members(g)`accessible, Members(g)`active, Members(g)`log
      ensures active == !old(active)
      ensures LinksOf(Members(g)) == old(LinksOf(Members(g)))
      ensures States(g) == GroupAfterSetActive(old(States(g)), k, !old(active))
    {
      SetActive(!active, g, k);
    }

    /** `gtk_check_button_set_inconsistent` */
    method SetInconsistent(setting: bool)
      modifies this`inconsistent, this`accessible, this`log
      ensures State() == AfterSetInconsistent(old(State()), setting)
    {
      if inconsistent != setting {
        inconsistent := setting;
        UpdateAccessibleState();
        log := log + [Notify(Inconsistent)];
      }
    }

    /** `gtk_check_button_set_draw_indicator` */
    method SetDrawIndicator(setting: bool)
      modifies this`drawIndicator, this`log
      ensures State() == AfterSetDrawIndicator(old(State()), setting)
    {
      if setting != drawIndicator {
        drawIndicator := setting;
        log := log + [Notify(DrawIndicator)];
      }
    }

    /** `gtk_check_button_set_use_underline` */
    method SetUseUnderline(setting: bool)
      modifies this`useUnderline, this`log
      ensures State() == AfterSetUseUnderline(old(State()), setting)
    {
      if setting == useUnderline {
        return;
      }
      useUnderline := setting;
      log := log + [Notify(UseUnderline)];
    }

    /** `gtk_check_button_set_label` */
    method SetLabel(text: string)
      modifies this`labelText, this`log
      ensures State() == AfterSetLabel(old(State()), text)
    {
      labelText := text;
      log := log + [Notify(Label)];
    }

    /**
     * `gtk_check_button_set_group`.  `u` is any set of buttons holding `self`,
     * `group` and the buttons they link to; the links of `u` change as
     * `SetGroupLinks` says and nothing else in `u` changes but the indicator
     * names and `self`'s `notify::group`.
     */
    method SetGroup(group: CheckButton?, ghost u: set<CheckButton>)
      requires this in u && Known(LinksOf(u), this)
      requires group != null ==> group in u && Known(LinksOf(u), group) && group.indicator != NoIndicator
      modifies u`groupPrev, u`groupNext, u`indicator, this`log
      ensures LinksOf(u) == SetGroupLinks(old(LinksOf(u)), this, Opt(group))
      ensures old(groupNext) == group ==> unchanged(u)
      ensures old(groupNext) != group ==>
        indicator == Renamed(old(indicator), if group == null then Check else Radio) &&
        log == old(log) + [Notify(Group)]
      ensures old(groupNext) != group && group != null ==> group.indicator == Radio
      ensures forall b :: b in u && b != this && b != group ==> b.indicator == old(b.indicator)
    {
      if groupNext == group {
        return;
      }
      if group == null {
        Unlink(u);
        MarkLeft(u);
        return;
      }
      AdoptPrevOf(group, u);
      AttachTo(group, u);
      MarkJoined(group, u);
    }

    /**
     * The end of `gtk_check_button_set_group` without a group:
     * `notify::group` is emitted and the indicator renamed "check".
     */
    method MarkLeft(ghost u: set<CheckButton>)
      modifies this`indicator, this`log
      ensures indicator == Renamed(old(indicator), Check) && log == old(log) + [Notify(Group)]
      ensures LinksOf(u) == old(LinksOf(u))
      ensures forall b :: b in u && b != this ==> b.indicator == old(b.indicator)
    {
      log := log + [Notify(Group)];
      indicator := Renamed(indicator, Check);
      LinksKept(u);
    }

    /**
     * The end of `gtk_check_button_set_group` with a group: this button's
     * indicator is renamed "radio" if it still exists, `group`'s is renamed
     * without that test, and `notify::group` is emitted.
     */
    method MarkJoined(group: CheckButton, ghost u: set<CheckButton>)
      requires group.indicator != NoIndicator
      modifies this`indicator, this`log, group`indicator
      ensures indicator == Renamed(old(indicator), Radio) && log == old(log) + [Notify(Group)]
      ensures group.indicator == Radio
      ensures LinksOf(u) == old(LinksOf(u))
      ensures forall b :: b in u && b != this && b != group ==> b.indicator == old(b.indicator)
    {
      indicator := Renamed(indicator, Radio);
      group.indicator := Radio;
      log := log + [Notify(Group)];
      LinksKept(u);
    }

    /**
     * The link writes of `gtk_check_button_set_group` without a group: the
     * neighbours are joined to each other and both links cleared.
     */
    method Unlink(ghost u: set<CheckButton>)
      requires this in u && Known(LinksOf(u), this) && groupNext != null
      modifies u`groupPrev, u`groupNext
      ensures LinksOf(u) == SetGroupLinks(old(LinksOf(u)), this, None)
    {
      ghost var m := LinksOf(u);
      assert m[this] == Links();
      ghost var p, n := m[this].prev, m[this].next;
      ghost var m1 := if p.Some? then m[p.value := m[p.value].(next := n)] else m;
      label Unlinking:
      if groupPrev != null {
        var prev := groupPrev;
        prev.groupNext := groupNext;
        prev.LinkWritten@Unlinking(u);
      }
      assert LinksOf(u) == m1;
      ghost var m2 := if n.Some? then m1[n.value := m1[n.value].(prev := p)] else m1;
      label Relinking:
      if groupNext != null {
        var next := groupNext;
        next.groupPrev := groupPrev;
        next.LinkWritten@Relinking(u);
      }
      assert LinksOf(u) == m2;
      label Clearing:
      groupNext := null;
      groupPrev := null;
      LinkWritten@Clearing(u);
    }

    /**
     * The first link writes of `gtk_check_button_set_group` with a group:
     * this button drops its `prev` and takes over the predecessor of `group`.
     */
    method AdoptPrevOf(group: CheckButton, ghost u: set<CheckButton>)
      requires this in u && Known(LinksOf(u), this)
      requires group in u && Known(LinksOf(u), group)
      modifies u`groupPrev, u`groupNext
      ensures LinksOf(u) == AdoptPrev(old(LinksOf(u)), this, group)
    {
      ghost var m := LinksOf(u);
      assert m[this] == Links();
      ghost var m1 := m[this := m[this].(prev := None)];
      label Detaching:
      groupPrev := null;
      LinkWritten@Detaching(u);
      assert LinksOf(u) == m1;
      if group.groupPrev != null {
        ghost var gp := m1[group].prev;
        var prev := group.groupPrev;
        label Splicing:
        prev.groupNext := this;
        prev.LinkWritten@Splicing(u);
        ghost var m2 := m1[prev := m1[prev].(next := Some(this))];
        assert LinksOf(u) == m2;
        label Attaching:
        groupPrev := group.groupPrev;
        LinkWritten@Attaching(u);
        assert LinksOf(u) == m2[this := m2[this].(prev := gp)];
      }
    }

    /**
     * The last link writes of `gtk_check_button_set_group` with a group:
     * `group` points back to this button and this button forward to `group`.
     */
    method AttachTo(group: CheckButton, ghost u: set<CheckButton>)
      requires this in u && group in u
      modifies u`groupPrev, u`groupNext
      ensures LinksOf(u) == AttachBefore(old(LinksOf(u)), this, group)
    {
      ghost var m := LinksOf(u);
      label Inserting:
      group.groupPrev := this;
      group.LinkWritten@Inserting(u);
      ghost var m4 := m[group := m[group].(prev := Some(this))];
      assert LinksOf(u) == m4;
      label Closing:
      groupNext := group;
      LinkWritten@Closing(u);
    }

    /**
     * `gtk_check_button_dispose`: the indicator child is removed first, then
     * the button leaves its group with `set_group(NULL)`.
     */
    method Dispose(ghost u: set<CheckButton>)
      requires this in u && Known(LinksOf(u), this)
      modifies u`groupPrev, u`groupNext, u`indicator, this`log
      ensures LinksOf(u) == SetGroupLinks(old(LinksOf(u)), this, None)
      ensures indicator == NoIndicator
      ensures log == if old(groupNext) == null then old(log) else old(log) + [Notify(Group)]
      ensures forall b :: b in u && b != this ==> b.indicator == old(b.indicator)
    {
      indicator := NoIndicator;
      assert LinksOf(u) == old(LinksOf(u));
      SetGroup(null, u);
    }

    /**
     * Frame bookkeeping: when only the links of this button may have changed,
     * the links of `u` are the old ones with this button's replaced.
     */
    twostate lemma LinkWritten(u: set<CheckButton>)
      requires this in u
      requires forall b :: b in u && b != this ==> b.groupPrev == old(b.groupPrev) && b.groupNext == old(b.groupNext)
      ensures LinksOf(u) == old(LinksOf(u))[this := Links()]
    {
    }
  }

  /**
   * The second loop of `gtk_check_button_set_active`: from the first member
   * of the group, follow the `next` links and call `set_active(FALSE)` on
   * every member.
   */
  method DeactivateGroup(groupFirst: CheckButton, ghost g: seq<CheckButton>)
    requires IsGroup(g) && groupFirst == g[0]
    modifies Members(g)`accessible, Members(g)`active, Members(g)`log
    decreases 2
    ensures LinksOf(Members(g)) == old(LinksOf(Members(g)))
    ensures States(g) == DeactivateAll(old(States(g)))
  {
    ghost var m := LinksOf(Members(g));
    ghost var s0 := States(g);
    var iter: CheckButton? := groupFirst;
    ghost var j := 0;
    while iter != null
      invariant j <= |g| && iter == if j < |g| then g[j] else null
      invariant LinksOf(Members(g)) == m
      invariant States(g) == DeactivateAll(s0[..j]) + s0[j..]
      decreases |g| - j
    {
      iter := DeactivateStep(iter, g, j, s0);
      j := j + 1;
    }
    assert s0[..j] == s0;
  }

  /** One turn of that loop: `set_active(FALSE)` on member `j`, then step to its `next`. */
  method DeactivateStep(iter: CheckButton, ghost g: seq<CheckButton>, ghost j: nat, ghost s0: seq<ButtonState>)
    returns (next: CheckButton?)
    requires IsGroup(g) && j < |g| && g[j] == iter && |s0| == |g|
    requires States(g) == DeactivateAll(s0[..j]) + s0[j..]
    modifies Members(g)`accessible, Members(g)`active, Members(g)`log
    decreases 1
    ensures LinksOf(Members(g)) == old(LinksOf(Members(g)))
    ensures States(g) == DeactivateAll(s0[..j + 1]) + s0[j + 1..]
    ensures next == if j + 1 < |g| then g[j + 1] else null
  {
    ghost var m := LinksOf(Members(g));
    DeactivateOneMore(s0, j);
    iter.SetActive(false, g, j);
    ChainAt(m, g, j);
    assert g[j] in Members(g) && m[g[j]] == g[j].Links();
    next := iter.groupNext;
  }

  /** Frame bookkeeping: when no link in `u` has changed, the links of `u` are the old ones. */
  twostate lemma LinksKept(u: set<CheckButton>)
    requires forall b :: b in u ==> b.groupPrev == old(b.groupPrev) && b.groupNext == old(b.groupNext)
    ensures LinksOf(u) == old(LinksOf(u))
  {
  }

  function Opt(b: CheckButton?): Option<CheckButton>
  {
    if b == null then None else var c: CheckButton := b; Some(c)
  }

  ghost function Members(g: seq<CheckButton>): set<CheckButton>
  {
    set b | b in g
  }

  /** The links of the buttons in `u`. */
  ghost function LinksOf(u: set<CheckButton>): map<CheckButton, Link<CheckButton>>
    reads u
  {
    map b | b in u :: b.Links()
  }

  /** The states of the buttons in `g`, in order. */
  ghost function States(g: seq<CheckButton>): (s: seq<ButtonState>)
    reads Members(g)
    ensures |s| == |g|
    ensures forall i :: 0 <= i < |g| ==> s[i] == g[i].State()
  {
    seq(|g|, i requires 0 <= i < |g| reads Members(g) => g[i].State())
  }

  /** The heap links of the buttons in `g` make `g` one whole, well-formed group. */
  ghost predicate IsGroup(g: seq<CheckButton>)
    reads Members(g)
  {
    Chain(LinksOf(Members(g)), g)
  }
}
