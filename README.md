# GtkCheckButton: toggle state and radio groups

A Dafny model of the logic in `gtk/gtkcheckbutton.c`. It covers two parts.

- The button's state machine: `active`, `inconsistent`, `draw-indicator` and `use-underline`, each with the short-circuit of its setter.
- The doubly linked radio group built from each button's `group_prev` and `group_next` peer links. This group is what makes radio buttons mutually exclusive.

The model is in three modules.

- `GroupLinks` (`group_links.dfy`) describes the peer links as pure data: a map from each button to its pair of links.
  - `Chain(m, g)` says that the list `g` is one whole, well-formed group: its members are distinct, and each member's `prev` and `next` are its neighbours in `g`.
  - `SetGroupLinks` performs the link writes of `gtk_check_button_set_group` in the same order as the source. Aliasing between `self`, `group` and their neighbours therefore behaves as it does in C.
  - The lemmas prove what joining and leaving do to a well-formed group.
  - They also cover the cases the source gets wrong, listed under "## Findings":
    - a join while still grouped leaves a stale link;
    - a join to oneself, or two buttons joining each other, creates a cycle on which `set_active` never terminates;
    - the last member of a group cannot leave it.
  - `SetGroupIntended` is the corrected `set_group`, which leaves first and refuses to join itself. Lemmas prove that it keeps groups well-formed.
  - The class `CheckButton` models the code as written.
- `ToggleState` (`toggle_state.dfy`) holds the state of one button as a value and one pure transition per setter.
  - The state is the four flags, the accessible "checked" tristate last pushed, the indicator's CSS name, the label text, and the button's own log of `notify` and `toggled` emissions.
  - `GroupAfterSetActive` gives the effect of `set_active` on a whole group, listed first member to last.
- `CheckButtons` (`check_button.dfy`) has the class `CheckButton`, whose fields are those of the private structure.
  - Its methods update those fields in place, as the C functions do.
  - Each method is proved against the pure functions: `States(g) == GroupAfterSetActive(old(States(g)), k, setting)`, `LinksOf(u) == SetGroupLinks(old(LinksOf(u)), this, group)`, and so on.
  - A group is named by a ghost list `g` of its members. `IsGroup(g)` says that the heap links really form that list.
  - `SetGroup` and `Dispose` take a ghost set `u` of the buttons whose links may change.

## Model

| member | source | states |
|---|---|---|
| ToggleState.AccessibleState | gtk/gtkcheckbutton.c:295-312 | the pushed tristate is MIXED exactly when inconsistent, TRUE exactly when consistent and active, FALSE exactly when consistent and inactive |
| ToggleState.Renamed | gtk/gtkcheckbutton.c:727-729 | a rename guarded by "the indicator still exists" (727 and 746) gives the new name, and a button whose indicator was removed keeps none |
| ToggleState.AfterSetActive | gtk/gtkcheckbutton.c:629-632 | on one button, `active` becomes the setting; the state is unchanged exactly when the value was already the setting; otherwise `notify::active` then `toggled` are appended and the accessible state is the one for the OLD value; no other flag changes |
| ToggleState.DeactivateAll | gtk/gtkcheckbutton.c:663-665 | the forward walk keeps the group's length and leaves every member as `set_active(FALSE)` leaves it |
| ToggleState.DeactivateOneMore | gtk/gtkcheckbutton.c:664-665 | one more turn of the forward walk (`set_active(FALSE)` on member `j`) extends the switched-off prefix by that member |
| ToggleState.GroupAfterSetActive | gtk/gtkcheckbutton.c:621-674 | for a whole group: the target gets the single-button effect; nothing changes when the value is unchanged; deactivating, or activating an ungrouped button, touches no other member; activating a grouped button first switches every other member off |
| ToggleState.SetActiveSteps | gtk/gtkcheckbutton.c:645-673 | an unfolding of `GroupAfterSetActive` for a changed value, used as a proof step by `SetActive`: the group walk (only when a grouped button is activated), then the single-button effect on the target |
| ToggleState.SetActiveKeepsAtMostOne | gtk/gtkcheckbutton.c:645-671 | `set_active` with any value keeps "at most one member active", and after activating, the target is the only active member |
| ToggleState.JoinAtMostOne | gtk/gtkcheckbutton.c:734-753 | `set_group` never changes `active`. Inserting a button into a group keeps "at most one active" exactly when the group had it and, if the button is active, no member was active |
| ToggleState.ActiveJoinBreaks | gtk/gtkcheckbutton.c:734-753 | an active button joining a group with an active member leaves two members active |
| ToggleState.LeaveKeepsAtMostOne | gtk/gtkcheckbutton.c:710-731 | a member leaving keeps "at most one active" for the rest of the group |
| ToggleState.SetActiveIdempotent | gtk/gtkcheckbutton.c:629-632 | repeating `set_active` with the same value changes nothing and emits nothing |
| ToggleState.AfterSetInconsistent | gtk/gtkcheckbutton.c:534-562 | the flag is set; the state is unchanged exactly when the value is the same; on a change, the accessible state uses the NEW value and `notify::inconsistent` is appended; `active` and the other flags are kept |
| ToggleState.AfterSetDrawIndicator | gtk/gtkcheckbutton.c:482-500 | the flag is set; the state is unchanged exactly when the value is the same; on a change, `notify::draw-indicator` is appended; every other field is kept |
| ToggleState.AfterSetUseUnderline | gtk/gtkcheckbutton.c:783-798 | the flag is set; the state is unchanged exactly when the value is the same; on a change, `notify::use-underline` is appended; every other field is kept |
| ToggleState.AfterSetLabel | gtk/gtkcheckbutton.c:686-696 | the label text is replaced and `notify::label` is appended even when the text is the same; every flag is kept |
| GroupLinks.ChainAt | gtk/gtkcheckbutton.c:652-665 | in a well-formed group, member `i`'s `prev` is member `i-1` (none for the first) and its `next` is member `i+1` (none for the last); both walks of `set_active` rely on this |
| GroupLinks.AloneIffSingleton | gtk/gtkcheckbutton.c:645 | a member has neither link exactly when its group has one member, so testing whether either link is set tests whether the button is grouped |
| GroupLinks.SetGroupLinks | gtk/gtkcheckbutton.c:698-754 | keys are kept. When `self`'s next already is `group`, nothing changes. Leaving: `self`'s links are cleared, its prev's next becomes its old next, its next's prev becomes its old prev, and nobody else changes. Joining: `self`'s next is `group`, its prev is `group`'s old prev, that prev's next is `self`, `group`'s prev is `self`, and nobody else changes |
| GroupLinks.AdoptPrev | gtk/gtkcheckbutton.c:734-741 | let `gp` be `group`'s prev as read after `self`'s prev is cleared. `self`'s prev becomes `gp` and its next is kept, except that it becomes `self` when `gp` is `self`. `gp`'s next becomes `self` (739). Every other button keeps its links |
| GroupLinks.AttachBefore | gtk/gtkcheckbutton.c:743-744 | `group`'s prev becomes `self` and its next is kept. `self`'s next becomes `group` and its prev is kept, or both become `self` when `group` is `self`. Every other button keeps its links |
| GroupLinks.Detach | gtk/gtkcheckbutton.c:712-724 | `self`'s prev's next becomes `self`'s old next, its next's prev becomes its old prev, `self`'s links are cleared, nobody else changes, and every button whose links were known still has known links |
| GroupLinks.SameIndex | gtk/gtkcheckbutton.c:652-659 | in well-formed groups, a button's position is fixed by following `prev` links back to the first member |
| GroupLinks.AgreeAt | gtk/gtkcheckbutton.c:664 | two well-formed groups that agree at one position agree at every position both have |
| GroupLinks.ChainUnique | gtk/gtkcheckbutton.c:650-665 | two well-formed groups that share a member are the same list, so the links alone determine what the two walks visit |
| GroupLinks.ChainFromLinks | gtk/gtkcheckbutton.c:79-80 | a list whose members are linked as a doubly linked list at every position is a well-formed group, so its members are distinct |
| GroupLinks.DistinctByNext | gtk/gtkcheckbutton.c:664 | the positions of such a list hold distinct buttons, because the `next` walk ends sooner from a later position |
| GroupLinks.JoinInserts | gtk/gtkcheckbutton.c:734-744 | an ungrouped button joining member `k` of a well-formed group ends up directly before it, the result is again one well-formed group, and buttons outside the group keep their links |
| GroupLinks.LeaveRemoves | gtk/gtkcheckbutton.c:710-724 | a member with a next that leaves its group is left with no links, and the rest of the list is again a well-formed group |
| GroupLinks.DetachRemoves | gtk/gtkcheckbutton.c:712-724 | the leave writes, applied to any member of a group of two or more (the last one included), leave that member alone and the rest a well-formed group, and touch nobody outside the group |
| GroupLinks.LeaveLastIsIgnored | gtk/gtkcheckbutton.c:707-708 | the last member of a group of two or more cannot leave it: the links are unchanged and its predecessor still points to it |
| GroupLinks.JoinWhileGroupedBreaksOldGroup | gtk/gtkcheckbutton.c:734-744 | joining a second group while still grouped leaves the old predecessor pointing at `self` while `self` no longer points back, so that predecessor belongs to no well-formed group |
| GroupLinks.SelfJoinCycles | gtk/gtkcheckbutton.c:734-744 | an ungrouped button given itself as its group becomes its own prev and next, and no well-formed group contains it |
| GroupLinks.MutualJoinCycles | gtk/gtkcheckbutton.c:734-744 | after `a` joins `c` and `c` joins `a`, both of `a`'s links point at `c` and `c`'s next points at `a`. The forward walk cycles, and neither button is in any well-formed group |
| GroupLinks.SetGroupIntended | gtk/gtkcheckbutton.c:698-754 | the corrected `set_group`. Joining oneself changes nothing; leaving clears `self`'s links; joining another button puts `self` directly before it |
| GroupLinks.ChainFrame | gtk/gtkcheckbutton.c:79-80 | a well-formed group stays one when only buttons outside it change their links |
| GroupLinks.ChainsDisjoint | gtk/gtkcheckbutton.c:79-80 | two well-formed groups that differ in one member share no member |
| GroupLinks.DetachOutside | gtk/gtkcheckbutton.c:712-724 | detaching a member of a well-formed group leaves every button outside it unchanged |
| GroupLinks.IntendedLeaveRemoves | gtk/gtkcheckbutton.c:707-731 | with the corrected `set_group`, every member of a group of two or more can leave it, the last one included, and the rest stays a well-formed group |
| GroupLinks.IntendedJoinSame | gtk/gtkcheckbutton.c:734-744 | with the corrected `set_group`, moving a member before another member of its own group keeps one well-formed group, with the others in their old order |
| GroupLinks.IntendedJoinOther | gtk/gtkcheckbutton.c:734-744 | with the corrected `set_group`, a member of one group joining another ends up directly before its target, and both groups are well-formed afterwards |
| GroupLinks.IntendedMutualJoin | gtk/gtkcheckbutton.c:734-744 | with the corrected `set_group`, the two buttons of `MutualJoinCycles` end up as the well-formed group `[c, a]` |
| GroupLinks.PairJoins | gtk/gtkcheckbutton.c:734-744 | with the corrected `set_group`, one ungrouped button joining another makes a well-formed group of two |
| CheckButtons.CheckButton.constructor | gtk/gtkcheckbutton.c:387-415 | a new button is in the `Initial` state (indicator drawn and named "check", accessible state FALSE, nothing emitted) and has no links |
| CheckButtons.CheckButton.UpdateAccessibleState | gtk/gtkcheckbutton.c:295-312 | the pushed tristate is `AccessibleState` of the current flags |
| CheckButtons.CheckButton.GetActive | gtk/gtkcheckbutton.c:591-599 | returns the `active` flag |
| CheckButtons.CheckButton.GetInconsistent | gtk/gtkcheckbutton.c:572-580 | returns the `inconsistent` flag |
| CheckButtons.CheckButton.GetDrawIndicator | gtk/gtkcheckbutton.c:510-518 | returns the `draw-indicator` flag |
| CheckButtons.CheckButton.GetUseUnderline | gtk/gtkcheckbutton.c:765-773 | returns the `use-underline` flag |
| CheckButtons.CheckButton.GetLabel | gtk/gtkcheckbutton.c:676-684 | returns the label text |
| CheckButtons.CheckButton.GetGroupNext | gtk/gtkcheckbutton.c:601-605 | returns the `next` peer link |
| CheckButtons.CheckButton.GetGroupPrev | gtk/gtkcheckbutton.c:607-611 | returns the `prev` peer link |
| CheckButtons.CheckButton.SetActive | gtk/gtkcheckbutton.c:621-674 | on a well-formed group, the members' states become `GroupAfterSetActive` of the old ones, and no link changes |
| CheckButtons.CheckButton.Toggle | gtk/gtkcheckbutton.c:670-673 | only the target changes, and it changes as `AfterSetActive` says: accessible state pushed before `active` is assigned, then `notify::active` and `toggled` |
| CheckButtons.CheckButton.FirstInGroup | gtk/gtkcheckbutton.c:650-661 | the backward walk over `prev` links ends at the first member of the group |
| CheckButtons.DeactivateGroup | gtk/gtkcheckbutton.c:663-665 | the forward walk over `next` links from the first member leaves the group in the `DeactivateAll` state, with the links unchanged |
| CheckButtons.DeactivateStep | gtk/gtkcheckbutton.c:664-665 | one turn of that walk switches member `j` off and returns member `j+1` (or none after the last) |
| CheckButtons.CheckButton.ClickReleased | gtk/gtkcheckbutton.c:277-293 | a click release flips `active`, with the same group effect as `set_active(!active)` |
| CheckButtons.CheckButton.SetInconsistent | gtk/gtkcheckbutton.c:534-562 | the new state is `AfterSetInconsistent` of the old |
| CheckButtons.CheckButton.SetDrawIndicator | gtk/gtkcheckbutton.c:482-500 | the new state is `AfterSetDrawIndicator` of the old |
| CheckButtons.CheckButton.SetUseUnderline | gtk/gtkcheckbutton.c:783-798 | the new state is `AfterSetUseUnderline` of the old |
| CheckButtons.CheckButton.SetLabel | gtk/gtkcheckbutton.c:686-696 | the new state is `AfterSetLabel` of the old |
| CheckButtons.CheckButton.SetGroup | gtk/gtkcheckbutton.c:698-754 | the links of `u` become `SetGroupLinks` of the old ones. On the early return nothing in `u` changes. Otherwise `notify::group` is appended, and `self`'s indicator, if it still exists, is renamed "check" (leaving) or "radio" (joining). `group`'s indicator is renamed "radio" without a test, and no other indicator changes |
| CheckButtons.CheckButton.Unlink | gtk/gtkcheckbutton.c:710-724 | the link writes of leaving: the links become `SetGroupLinks(old, self, None)` |
| CheckButtons.CheckButton.MarkLeft | gtk/gtkcheckbutton.c:725-729 | after leaving, `notify::group` is appended and the indicator is renamed "check"; no link and no other indicator changes |
| CheckButtons.CheckButton.AdoptPrevOf | gtk/gtkcheckbutton.c:734-741 | the first link writes of joining: the links become `AdoptPrev` of the old ones |
| CheckButtons.CheckButton.AttachTo | gtk/gtkcheckbutton.c:743-744 | the last link writes of joining: the links become `AttachBefore` of the old ones |
| CheckButtons.CheckButton.MarkJoined | gtk/gtkcheckbutton.c:746-753 | after joining, `self`'s indicator (if it still exists) and `group`'s indicator (without a test) are renamed "radio", and `notify::group` is appended on `self`. No link and no other indicator changes |
| CheckButtons.CheckButton.Dispose | gtk/gtkcheckbutton.c:114-125 | the indicator is removed first, then the button leaves its group with `set_group(NULL)`: the links become `SetGroupLinks(old, self, None)`, and `notify::group` is appended only if the button had a next |

## Left out

- Rendering, CSS state flags (`gtk_widget_set_state_flags` and its inverse), `gtk_widget_queue_resize` and layout. They have no observable effect on the modelled state. Only the indicator's CSS name is kept, as an enumeration.
- The click gesture setup, focus grabbing on press, and the `g_message`/`g_warning` debug calls. These are event dispatch and logging.
- The action helper, and `click_released_cb`'s call to activate it. It is a foreign object whose behaviour is not part of this model.
- GObject property and signal registration, and the `set_property`/`get_property` dispatch. These are boilerplate around the setters. Notifications and `toggled` are modelled only as entries in each button's own log. The relative order of emissions on different buttons is not modelled.
- The label child widget. The label is modelled as a plain string, and `Dispose` does not model the label being unparented.
- The `g_return_if_fail` type checks. Every receiver in the model is a `CheckButton`.
- CheckButtons.CheckButton.SetActive: modelled only for a button whose links form a well-formed group `g`. This is not only a modelling choice: `set_group` as written can leave links that form no such group (see "## Findings"). On the cycles it creates (`SelfJoinCycles`, `MutualJoinCycles`), the walks at lines 652-659 and 664-665 of `gtk/gtkcheckbutton.c` never terminate. After a join while grouped (`JoinWhileGroupedBreaksOldGroup`), the walks visit a list that is not one group. `set_active` in those states is not modelled.
- CheckButtons.CheckButton.ClickReleased: requires a well-formed group for the same reason as `SetActive`.
- CheckButtons.CheckButton.SetGroup: the set `u` of buttons whose links may change must contain `self`, `group` and the buttons they link to. This is a framing device of the model, not a demand of the source. The rest of each button's state is fixed by the `modifies` clause, so the `ensures` names only the fields that change.
- CheckButtons.CheckButton.SetGroup: joining a button whose indicator has already been removed (a disposed button passed as `group`) is not modelled. The rename at lines 750-751 of `gtk/gtkcheckbutton.c` is not guarded, and what the CSS node calls do with a missing widget is not part of this model. `SetGroup` and `MarkJoined` therefore require `group`'s indicator to exist.
- CheckButtons.CheckButton.Dispose: the same framing requirement as `SetGroup`. Chaining up to the parent class's dispose is not modelled.
- `gtk_check_button_set_group` never changes `active`. The `modifies` clause of `SetGroup` says so. Joining an active button to a group with an active member therefore leaves two members active (`ActiveJoinBreaks`).

## Findings

| source | as written | input that shows it | evidently intended | confidence | as-written member | corrected member |
|---|---|---|---|---|---|---|
| gtk/gtkcheckbutton.c:734-744 | joining does not take `self` out of its current group | two ungrouped buttons: `set_group(a, c)`, then `set_group(c, a)`. `a`'s links both point at `c`, and `c`'s next points at `a`; the forward walk of `set_active` then cycles | leave the current group first, then insert before `group` | medium, not executed | GroupLinks.MutualJoinCycles | GroupLinks.IntendedJoinSame |
| gtk/gtkcheckbutton.c:734-744 | joining does not take `self` out of its current group | `set_group(self, x)` while `self` is in the middle of another group: `self`'s old predecessor still points at it, so that predecessor is in no well-formed group | leave the current group first, then insert before `group` | medium, not executed | GroupLinks.JoinWhileGroupedBreaksOldGroup | GroupLinks.IntendedJoinOther |
| gtk/gtkcheckbutton.c:707-708 | the early return compares `group_next` with `group` even when `group` is NULL | `set_group(b, NULL)` on the last member `b` of a group of two: nothing changes, and the predecessor still points at `b`, also after `b` is disposed | a member leaves its group from any position | medium, not executed | GroupLinks.LeaveLastIsIgnored | GroupLinks.IntendedLeaveRemoves |
| gtk/gtkcheckbutton.c:734-744 | `group == self` is not rejected | `set_group(b, b)` on an ungrouped `b`: `b` becomes its own prev and next, and the backward walk of `set_active` (652-659) never ends | refuse to join oneself | medium, not executed | GroupLinks.SelfJoinCycles | GroupLinks.SetGroupIntended |
