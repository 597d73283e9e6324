/**
 * The radio group of a check button as pure data.
 *
 * Every button carries two peer links, `group_prev` and `group_next`; the
 * buttons of one group form a doubly linked list.  Here the links of a set of
 * buttons are a map from button to its `Link`, which lets the splice performed
 * by `gtk_check_button_set_group` be stated and reasoned about as a function,
 * independently of the heap.
 */
module GroupLinks {

  datatype Option<T> = None | Some(value: T)

  /** The two peer links of one button (`group_prev`, `group_next`). */
  datatype Link<T> = Link(prev: Option<T>, next: Option<T>)

  /** `b` has links in `m`, and the buttons it links to have links in `m` too. */
  predicate Known<T(==)>(m: map<T, Link<T>>, b: T)
  {
    b in m &&
    (m[b].prev.Some? ==> m[b].prev.value in m) &&
    (m[b].next.Some? ==> m[b].next.value in m)
  }

  /**
   * The links of position `i` of the list `g` are those of a doubly linked
   * list: `prev` is the member before (none for the first), `next` the member
   * after (none for the last).
   */
  predicate LinkedAt<T(==)>(m: map<T, Link<T>>, g: seq<T>, i: nat)
    requires i < |g|
  {
    Known(m, g[i]) &&
    m[g[i]].prev == (if i == 0 then None else Some(g[i - 1])) &&
    m[g[i]].next == (if i == |g| - 1 then None else Some(g[i + 1]))
  }

  /**
   * `g` is one whole, well-formed group of `m`, first member to last: the
   * members are distinct (the list is acyclic) and every position is linked
   * as in a doubly linked list, so the first member has no `prev` and the last
   * no `next`.  A button with no links is the group `[b]`.
   */
  predicate Chain<T(==)>(m: map<T, Link<T>>, g: seq<T>)
  {
    |g| > 0 &&
    (forall i, j :: 0 <= i < j < |g| ==> g[i] != g[j]) &&
    (forall i :: 0 <= i < |g| ==> LinkedAt(m, g, i))
  }

  /** The links of the member at position `i` of a well-formed group. */
  lemma ChainAt<T>(m: map<T, Link<T>>, g: seq<T>, i: nat)
    requires Chain(m, g) && i < |g|
    ensures Known(m, g[i])
    ensures m[g[i]].prev == if i == 0 then None else Some(g[i - 1])
    ensures m[g[i]].next == if i == |g| - 1 then None else Some(g[i + 1])
  {
    assert LinkedAt(m, g, i);
  }

  /** A member of a well-formed group has no links at all exactly when it is alone in it. */
  lemma AloneIffSingleton<T>(m: map<T, Link<T>>, g: seq<T>, k: nat)
    requires Chain(m, g) && k < |g|
    ensures Known(m, g[k])
    ensures m[g[k]] == Link(None, None) <==> |g| == 1
  {
    ChainAt(m, g, k);
  }

  /**
   * The links after `gtk_check_button_set_group(self, group)`, written in the
   * order in which the source assigns them (so that aliasing between `self`,
   * `group` and their neighbours behaves as in the source):
   *  - nothing happens when `self`'s `next` already is `group`;
   *  - with no group, `self` is detached from its neighbours;
   *  - with a group, `self` is inserted directly before `group`.  `self` is
   *    never taken out of the group it was in before.
   */
  function SetGroupLinks<T(==)>(m: map<T, Link<T>>, self: T, group: Option<T>): (r: map<T, Link<T>>)
    requires Known(m, self)
    requires group.Some? ==> Known(m, group.value)
    ensures r.Keys == m.Keys
    // the early return
    ensures m[self].next == group ==> r == m
    // leaving: both links cleared, the neighbours joined, nobody else touched
    ensures m[self].next != group && group.None? ==>
      var p, n := m[self].prev, m[self].next;
      r[self] == Link(None, None) &&
      (p.Some? && p.value != self && p != n ==> r[p.value] == m[p.value].(next := n)) &&
      (n.Some? && n.value != self && p != n ==> r[n.value] == m[n.value].(prev := p)) &&
      (p.Some? && p.value != self && p == n ==> r[p.value] == Link(p, n)) &&
      (forall b :: b in m && b != self && Some(b) != p && Some(b) != n ==> r[b] == m[b])
    // joining: self just before group, group's old prev just before self
    ensures m[self].next != group && group.Some? ==>
      var g, gp := group.value, m[group.value].prev;
      r[self] == Link(if g == self then Some(self) else gp, group)
    ensures m[self].next != group && group.Some? ==>
      var g, gp := group.value, m[group.value].prev;
      (g != self && gp != Some(g) ==> r[g] == m[g].(prev := Some(self)))
    ensures m[self].next != group && group.Some? ==>
      var g, gp := group.value, m[group.value].prev;
      (g != self && gp.Some? && gp.value != self && gp.value != g ==> r[gp.value] == m[gp.value].(next := Some(self)))
    ensures m[self].next != group && group.Some? ==>
      var g, gp := group.value, m[group.value].prev;
      (forall b :: b in m && b != self && b != g && Some(b) != gp ==> r[b] == m[b])
  {
    if m[self].next == group then m
    else match group
      case None => Detach(m, self)
      case Some(g) => AttachBefore(AdoptPrev(m, self, g), self, g)
  }

  /**
   * The link writes of leaving: `self`'s `prev` is pointed forward to its
   * `next`, its `next` back to its `prev`, and both of `self`'s links are
   * cleared.
   */
  function Detach<T(==)>(m: map<T, Link<T>>, self: T): (r: map<T, Link<T>>)
    requires Known(m, self)
    ensures r.Keys == m.Keys
    ensures var p, n := m[self].prev, m[self].next;
      r[self] == Link(None, None) &&
      (p.Some? && p.value != self && p != n ==> r[p.value] == m[p.value].(next := n)) &&
      (n.Some? && n.value != self && p != n ==> r[n.value] == m[n.value].(prev := p)) &&
      (p.Some? && p.value != self && p == n ==> r[p.value] == Link(p, n)) &&
      (forall b :: b in m && b != self && Some(b) != p && Some(b) != n ==> r[b] == m[b])
    ensures forall b :: b in m && Known(m, b) ==> Known(r, b)
  {
    var p, n := m[self].prev, m[self].next;
    var m1 := if p.Some? then m[p.value := m[p.value].(next := n)] else m;
    var m2 := if n.Some? then m1[n.value := m1[n.value].(prev := p)] else m1;
    m2[self := Link(None, None)]
  }

  /**
   * The first half of a join: `self` drops its `prev` and takes over the
   * predecessor of `g` (read after the drop), which now points forward to `self`.
   */
  function AdoptPrev<T(==)>(m: map<T, Link<T>>, self: T, g: T): (r: map<T, Link<T>>)
    requires Known(m, self) && Known(m, g)
    ensures r.Keys == m.Keys
    ensures var gp := if g == self then None else m[g].prev;
      r[self] == (if gp == Some(self) then Link(gp, gp) else m[self].(prev := gp)) &&
      (gp.Some? && gp.value != self ==> r[gp.value] == m[gp.value].(next := Some(self))) &&
      (forall b :: b in m && b != self && Some(b) != gp ==> r[b] == m[b])
  {
    var m1 := m[self := m[self].(prev := None)];
    var gp := m1[g].prev;
    var m2 := if gp.Some? then m1[gp.value := m1[gp.value].(next := Some(self))] else m1;
    if gp.Some? then m2[self := m2[self].(prev := gp)] else m2
  }

  /** The second half of a join: `self` and `g` are linked, `self` first. */
  function AttachBefore<T(==)>(m: map<T, Link<T>>, self: T, g: T): (r: map<T, Link<T>>)
    requires self in m && g in m
    ensures r.Keys == m.Keys
    ensures r[self] == if g == self then Link(Some(self), Some(self)) else m[self].(next := Some(g))
    ensures g != self ==> r[g] == m[g].(prev := Some(self))
    ensures forall b :: b in m && b != self && b != g ==> r[b] == m[b]
  {
    var m4 := m[g := m[g].(prev := Some(self))];
    m4[self := m4[self].(next := Some(g))]
  }

  /** In a well-formed group, a member's position is fixed by the `prev` links. */
  lemma {:induction false} SameIndex<T>(m: map<T, Link<T>>, g: seq<T>, h: seq<T>, i: nat, j: nat)
    requires Chain(m, g) && Chain(m, h)
    requires i < |g| && j < |h| && g[i] == h[j]
    ensures i == j
    decreases i
  {
    ChainAt(m, g, i);
    ChainAt(m, h, j);
    if i > 0 {
      SameIndex(m, g, h, i - 1, j - 1);
    }
  }

  /** Two well-formed groups that agree at one position agree at every position both have. */
  lemma {:induction false} AgreeAt<T>(m: map<T, Link<T>>, g: seq<T>, h: seq<T>, i: nat, l: nat)
    requires Chain(m, g) && Chain(m, h)
    requires i < |g| && i < |h| && g[i] == h[i]
    requires l < |g| && l < |h|
    ensures g[l] == h[l]
    decreases if l < i then i - l else l - i
  {
    if l < i {
      AgreeAt(m, g, h, i, l + 1);
      ChainAt(m, g, l + 1);
      ChainAt(m, h, l + 1);
    } else if l > i {
      AgreeAt(m, g, h, i, l - 1);
      ChainAt(m, g, l - 1);
      ChainAt(m, h, l - 1);
    }
  }

  /**
   * A button belongs to at most one group: two well-formed groups that share a
   * member are the same list.  So the list that `set_active`'s two walks
   * traverse (back to the first member, then forward) is determined by the links.
   */
  lemma ChainUnique<T>(m: map<T, Link<T>>, g: seq<T>, h: seq<T>, b: T)
    requires Chain(m, g) && Chain(m, h)
    requires b in g && b in h
    ensures g == h
  {
    var i :| 0 <= i < |g| && g[i] == b;
    var j :| 0 <= j < |h| && h[j] == b;
    SameIndex(m, g, h, i, j);
    forall l | 0 <= l < |g| && l < |h|
      ensures g[l] == h[l]
    {
      AgreeAt(m, g, h, i, l);
    }
    // the shorter list ends where the longer one would go on
    var n := if |g| < |h| then |g| else |h|;
    ChainAt(m, g, n - 1);
    ChainAt(m, h, n - 1);
  }

  /**
   * Joining: an ungrouped button `self` that joins the group `g` at its member
   * `g[k]` ends up directly before `g[k]`, and the result is again one whole,
   * well-formed group.  Buttons outside `g` keep their links.
   */
  lemma JoinInserts<T>(m: map<T, Link<T>>, g: seq<T>, k: nat, self: T)
    requires Chain(m, g) && k < |g|
    requires self in m && m[self] == Link(None, None) && self !in g
    ensures Known(m, g[k])
    ensures var r := SetGroupLinks(m, self, Some(g[k]));
      Chain(r, g[..k] + [self] + g[k..]) &&
      forall b :: b in m && b !in g && b != self ==> r[b] == m[b]
  {
    ChainAt(m, g, k);
    var r := SetGroupLinks(m, self, Some(g[k]));
    var h := g[..k] + [self] + g[k..];
    assert HAt: forall i :: 0 <= i < |h| ==> h[i] == if i < k then g[i] else if i == k then self else g[i - 1];
    forall i | 0 <= i < |h|
      ensures LinkedAt(r, h, i)
    {
      if i < k {
        ChainAt(m, g, i);
      } else if i > k {
        ChainAt(m, g, i - 1);
      }
    }
    ChainFromLinks(r, h);
  }

  /** A list linked as a doubly linked list at every position is a well-formed group. */
  lemma ChainFromLinks<T>(m: map<T, Link<T>>, g: seq<T>)
    requires |g| > 0
    requires forall i :: 0 <= i < |g| ==> LinkedAt(m, g, i)
    ensures Chain(m, g)
  {
    forall i, j | 0 <= i < j < |g|
      ensures g[i] != g[j]
    {
      DistinctByNext(m, g, i, j);
    }
  }

  /**
   * Positions of a linked list hold distinct members: from position `j` the
   * `next` links end sooner than from any earlier position `i`.
   */
  lemma {:induction false} DistinctByNext<T>(m: map<T, Link<T>>, g: seq<T>, i: nat, j: nat)
    requires forall i :: 0 <= i < |g| ==> LinkedAt(m, g, i)
    requires i < j < |g|
    ensures g[i] != g[j]
    decreases |g| - j
  {
    assert LinkedAt(m, g, i) && LinkedAt(m, g, j);
    if j < |g| - 1 {
      DistinctByNext(m, g, i + 1, j + 1);
    }
  }

  /**
   * Leaving: a member `g[k]` that has a `next` leaves its group: its
   * neighbours are linked to each other, the rest of the list is again a
   * well-formed group, and `g[k]` is left on its own.
   */
  lemma LeaveRemoves<T>(m: map<T, Link<T>>, g: seq<T>, k: nat)
    requires Chain(m, g) && k < |g| - 1
    ensures Known(m, g[k])
    ensures var r := SetGroupLinks(m, g[k], None);
      Chain(r, g[..k] + g[k + 1..]) && r[g[k]] == Link(None, None) &&
      forall b :: b in m && b !in g ==> r[b] == m[b]
  {
    ChainAt(m, g, k);
    DetachRemoves(m, g, k);
  }

  /**
   * Detaching any member of a group of two or more, the last one included,
   * leaves the rest of the list a well-formed group and the member alone.
   */
  lemma DetachRemoves<T>(m: map<T, Link<T>>, g: seq<T>, k: nat)
    requires Chain(m, g) && k < |g| && |g| > 1
    ensures Known(m, g[k])
    ensures var r := Detach(m, g[k]);
      Chain(r, g[..k] + g[k + 1..]) && r[g[k]] == Link(None, None) &&
      forall b :: b in m && b !in g ==> r[b] == m[b]
  {
    ChainAt(m, g, k);
    var r := Detach(m, g[k]);
    var h := g[..k] + g[k + 1..];
    assert HAt: forall i :: 0 <= i < |h| ==> h[i] == if i < k then g[i] else g[i + 1];
    forall i | 0 <= i < |h|
      ensures LinkedAt(r, h, i)
    {
      if i < k {
        ChainAt(m, g, i);
      } else {
        ChainAt(m, g, i + 1);
      }
    }
    ChainFromLinks(r, h);
  }

  /**
   * The last member of a group of two or more cannot leave it: its `next` is
   * already absent, so the early return fires and its predecessor still links
   * to it.
   */
  lemma LeaveLastIsIgnored<T>(m: map<T, Link<T>>, g: seq<T>)
    requires Chain(m, g) && |g| > 1
    ensures Known(m, g[|g| - 1]) && Known(m, g[|g| - 2])
    ensures var r := SetGroupLinks(m, g[|g| - 1], None);
      r == m && r[g[|g| - 2]].next == Some(g[|g| - 1])
  {
    ChainAt(m, g, |g| - 1);
    ChainAt(m, g, |g| - 2);
  }

  /**
   * Joining a second group while still in a first one: `self`'s old
   * predecessor keeps pointing at `self`, while `self` now points elsewhere,
   * so that predecessor is no longer a member of any well-formed group.
   */
  lemma JoinWhileGroupedBreaksOldGroup<T>(m: map<T, Link<T>>, g: seq<T>, i: nat, h: seq<T>, j: nat)
    requires Chain(m, g) && 0 < i < |g|
    requires Chain(m, h) && j < |h| && h[j] !in g
    ensures Known(m, g[i]) && Known(m, g[i - 1]) && Known(m, h[j])
    ensures var r := SetGroupLinks(m, g[i], Some(h[j]));
      r[g[i - 1]].next == Some(g[i]) && r[g[i]].prev != Some(g[i - 1]) &&
      forall c :: Chain(r, c) ==> g[i - 1] !in c
  {
    ChainAt(m, g, i);
    ChainAt(m, g, i - 1);
    ChainAt(m, h, j);
    var self, q, t := g[i], g[i - 1], h[j];
    var r := SetGroupLinks(m, self, Some(t));
    if m[t].prev == Some(q) {
      ChainUnique(m, g, h, q);
      assert false;
    }
    forall c | Chain(r, c)
      ensures q !in c
    {
      if q in c {
        var a :| 0 <= a < |c| && c[a] == q;
        ChainAt(r, c, a);
        ChainAt(r, c, a + 1);
        assert false;
      }
    }
  }

  /**
   * Joining oneself: an ungrouped button `b` that is given itself as its group
   * ends up as its own `prev` and `next`, a cycle of one that no well-formed
   * group contains; the backward walk of `set_active` never leaves it.
   */
  lemma SelfJoinCycles<T>(m: map<T, Link<T>>, b: T)
    requires b in m && m[b] == Link(None, None)
    ensures Known(m, b)
    ensures var r := SetGroupLinks(m, b, Some(b));
      r[b] == Link(Some(b), Some(b)) && forall c :: Chain(r, c) ==> b !in c
  {
    var r := SetGroupLinks(m, b, Some(b));
    forall c | Chain(r, c)
      ensures b !in c
    {
      if b in c {
        var a :| 0 <= a < |c| && c[a] == b;
        ChainAt(r, c, a);
        assert false;
      }
    }
  }

  /**
   * Joining each other: two ungrouped buttons `a` and `c`, `a` joining `c` and
   * then `c` joining `a`.  `a`'s links both point at `c` and `c`'s `next`
   * points back at `a`, so the forward walk from `c` goes `c`, `a`, `c`, ...
   * and neither button is in any well-formed group.
   */
  lemma MutualJoinCycles<T>(m: map<T, Link<T>>, a: T, c: T)
    requires a != c && a in m && c in m
    requires m[a] == Link(None, None) && m[c] == Link(None, None)
    ensures Known(m, a) && Known(m, c)
    ensures var r1 := SetGroupLinks(m, a, Some(c));
      Known(r1, a) && Known(r1, c) &&
      var r := SetGroupLinks(r1, c, Some(a));
      r[a] == Link(Some(c), Some(c)) && r[c] == Link(None, Some(a)) &&
      forall s :: Chain(r, s) ==> a !in s && c !in s
  {
    var r1 := SetGroupLinks(m, a, Some(c));
    assert r1[a] == Link(None, Some(c)) && r1[c] == Link(Some(a), None);
    var r := SetGroupLinks(r1, c, Some(a));
    forall s | Chain(r, s)
      ensures a !in s && c !in s
    {
      if a in s {
        var x :| 0 <= x < |s| && s[x] == a;
        ChainAt(r, s, x);
        assert false;
      }
      if c in s {
        var y :| 0 <= y < |s| && s[y] == c;
        ChainAt(r, s, y);
        assert false;
      }
    }
  }

  /**
   * `set_group` as its documentation describes it: a button given itself as
   * its group is refused; otherwise the button first leaves whatever group it
   * is in, from any position, and then joins `group`, if any, directly before
   * it.
   */
  function SetGroupIntended<T(==)>(m: map<T, Link<T>>, self: T, group: Option<T>): (r: map<T, Link<T>>)
    requires Known(m, self)
    requires group.Some? ==> Known(m, group.value)
    ensures r.Keys == m.Keys
    ensures group == Some(self) ==> r == m
    ensures group.None? ==> r[self] == Link(None, None)
    ensures group.Some? && group != Some(self) ==>
      r[self].next == group && r[group.value].prev == Some(self)
  {
    if group == Some(self) then m
    else
      var d := Detach(m, self);
      if group.None? then d else SetGroupLinks(d, self, group)
  }

  /** A well-formed group stays one when the links of everyone outside it change. */
  lemma ChainFrame<T>(m: map<T, Link<T>>, r: map<T, Link<T>>, c: seq<T>)
    requires Chain(m, c)
    requires forall i :: 0 <= i < |c| ==> c[i] in m && c[i] in r && r[c[i]] == m[c[i]]
    ensures Chain(r, c)
  {
    forall i | 0 <= i < |c|
      ensures LinkedAt(r, c, i)
    {
      ChainAt(m, c, i);
    }
  }

  /** The intended leave works from every position, the last one included. */
  lemma IntendedLeaveRemoves<T>(m: map<T, Link<T>>, g: seq<T>, k: nat)
    requires Chain(m, g) && k < |g| && |g| > 1
    ensures Known(m, g[k])
    ensures var r := SetGroupIntended(m, g[k], None);
      Chain(r, g[..k] + g[k + 1..]) && r[g[k]] == Link(None, None) &&
      forall b :: b in m && b !in g ==> r[b] == m[b]
  {
    DetachRemoves(m, g, k);
  }

  /**
   * The intended join, within one group: member `i` moved to just before
   * member `k` leaves the group well-formed, with every other member in its
   * old order.
   */
  lemma IntendedJoinSame<T>(m: map<T, Link<T>>, g: seq<T>, i: nat, k: nat)
    requires Chain(m, g) && i < |g| && k < |g| && i != k
    ensures Known(m, g[i]) && Known(m, g[k])
    ensures var rest, k' := g[..i] + g[i + 1..], if k < i then k else k - 1;
      var r := SetGroupIntended(m, g[i], Some(g[k]));
      Chain(r, rest[..k'] + [g[i]] + rest[k'..]) &&
      forall b :: b in m && b !in g ==> r[b] == m[b]
  {
    ChainAt(m, g, i);
    ChainAt(m, g, k);
    var self := g[i];
    var rest, k' := g[..i] + g[i + 1..], if k < i then k else k - 1;
    DetachRemoves(m, g, i);
    var d := Detach(m, self);
    assert rest[k'] == g[k];
    assert self !in rest by {
      forall l | 0 <= l < |rest|
        ensures rest[l] != self
      {
        if l < i {
          assert rest[l] == g[l];
        } else {
          assert rest[l] == g[l + 1];
        }
      }
    }
    ChainAt(d, rest, k');
    JoinInserts(d, rest, k', self);
  }

  /**
   * The intended join, into another group: `g[i]` leaves `g`, whose rest stays
   * a well-formed group, and is inserted directly before `h[k]`.
   */
  lemma IntendedJoinOther<T>(m: map<T, Link<T>>, g: seq<T>, i: nat, h: seq<T>, k: nat)
    requires Chain(m, g) && i < |g| && Chain(m, h) && k < |h| && g[i] !in h
    ensures Known(m, g[i]) && Known(m, h[k])
    ensures var r := SetGroupIntended(m, g[i], Some(h[k]));
      Chain(r, h[..k] + [g[i]] + h[k..]) &&
      (|g| > 1 ==> Chain(r, g[..i] + g[i + 1..])) &&
      forall b :: b in m && b !in g && b !in h ==> r[b] == m[b]
  {
    ChainAt(m, g, i);
    ChainAt(m, h, k);
    var self := g[i];
    ChainsDisjoint(m, g, h, self);
    DetachOutside(m, g, i);
    var d := Detach(m, self);
    forall l | 0 <= l < |h|
      ensures h[l] in m && h[l] in d && d[h[l]] == m[h[l]]
    {
      ChainAt(m, h, l);
      assert h[l] in h;
    }
    ChainFrame(m, d, h);
    ChainAt(d, h, k);
    JoinInserts(d, h, k, self);
    if |g| > 1 {
      DetachRemoves(m, g, i);
      var rest := g[..i] + g[i + 1..];
      var r := SetGroupLinks(d, self, Some(h[k]));
      forall l | 0 <= l < |rest|
        ensures rest[l] in d && rest[l] in r && r[rest[l]] == d[rest[l]]
      {
        ChainAt(d, rest, l);
        assert rest[l] != self && rest[l] !in h by {
          assert rest[l] == if l < i then g[l] else g[l + 1];
        }
      }
      ChainFrame(d, r, rest);
    }
  }

  /** Two well-formed groups that differ in one member share none. */
  lemma ChainsDisjoint<T>(m: map<T, Link<T>>, g: seq<T>, h: seq<T>, x: T)
    requires Chain(m, g) && Chain(m, h) && x in g && x !in h
    ensures forall b :: b in h ==> b !in g
  {
    forall b | b in h
      ensures b !in g
    {
      if b in g {
        ChainUnique(m, g, h, b);
      }
    }
  }

  /** Detaching a member of a well-formed group leaves every button outside it alone. */
  lemma DetachOutside<T>(m: map<T, Link<T>>, g: seq<T>, i: nat)
    requires Chain(m, g) && i < |g|
    ensures Known(m, g[i])
    ensures forall b :: b in m && b !in g ==> Detach(m, g[i])[b] == m[b]
  {
    ChainAt(m, g, i);
    if |g| > 1 {
      DetachRemoves(m, g, i);
    } else {
      AloneIffSingleton(m, g, i);
    }
  }

  /**
   * The two buttons of `MutualJoinCycles`, with the intended `set_group`:
   * they end up as the well-formed group `[c, a]`.
   */
  lemma IntendedMutualJoin<T>(m: map<T, Link<T>>, a: T, c: T)
    requires a != c && a in m && c in m
    requires m[a] == Link(None, None) && m[c] == Link(None, None)
    ensures Known(m, a) && Known(m, c)
    ensures var r1 := SetGroupIntended(m, a, Some(c));
      Known(r1, a) && Known(r1, c) &&
      Chain(SetGroupIntended(r1, c, Some(a)), [c, a])
  {
    PairJoins(m, a, c);
    var r1 := SetGroupIntended(m, a, Some(c));
    ChainAt(r1, [a, c], 0);
    ChainAt(r1, [a, c], 1);
    IntendedJoinSame(r1, [a, c], 1, 0);
    assert [a, c][..1] + [a, c][2..] == [a];
    assert [a][..0] + [c] + [a][0..] == [c, a];
  }

  /** The first step of `IntendedMutualJoin`: `a` joining `c` makes the group `[a, c]`. */
  lemma PairJoins<T>(m: map<T, Link<T>>, a: T, c: T)
    requires a != c && a in m && c in m
    requires m[a] == Link(None, None) && m[c] == Link(None, None)
    ensures Known(m, a) && Known(m, c)
    ensures Chain(SetGroupIntended(m, a, Some(c)), [a, c])
  {
    assert LinkedAt(m, [a], 0) && LinkedAt(m, [c], 0);
    IntendedJoinOther(m, [a], 0, [c], 0);
    assert [c][..0] + [a] + [c][0..] == [a, c];
  }
}
