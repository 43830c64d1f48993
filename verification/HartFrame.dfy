/** What a step leaves alone: lemmas that lift a change of one or two harts to the whole state. */
module HartFrame {
  import opened HartModel
  import opened HartInvariant

  // --- locks -----------------------------------------------------------------------------------

  ghost predicate SameHolds(s: State, s': State, h: nat)
    requires h < |s.harts| == |s'.harts|
  {
    forall g | 0 <= g < |s.harts| && g != h :: Holds(g, s'.harts[g]) == Holds(g, s.harts[g])
  }

  lemma LocksSame(s: State, s': State, h: nat)
    requires LocksOk(s) && h < |s.harts| == |s'.harts| && s'.taken == s.taken && s'.owner == s.owner
    requires SameHolds(s, s', h) && Holds(h, s'.harts[h]) == Holds(h, s.harts[h])
    ensures LocksOk(s')
  {
    hide Holds;
    forall g | 0 <= g < |s.harts| ensures HoldsOk(s', g) {
      assert HoldsOk(s, g);
    }
  }

  lemma LocksTaken(s: State, s': State, h: nat, l: Lock)
    requires LocksOk(s) && h < |s.harts| == |s'.harts|
    requires l !in s.taken && s'.taken == s.taken + {l} && s'.owner == s.owner[l := h]
    requires SameHolds(s, s', h) && Holds(h, s'.harts[h]) == Holds(h, s.harts[h]) + {l}
    ensures LocksOk(s')
  {
    hide Holds;
    forall g | 0 <= g < |s.harts| ensures HoldsOk(s', g) {
      assert HoldsOk(s, g);
    }
  }

  lemma LocksPosted(s: State, s': State, h: nat, l: Lock)
    requires LocksOk(s) && h < |s.harts| == |s'.harts|
    requires s'.taken == s.taken - {l} && s'.owner == s.owner - {l}
    requires l in Holds(h, s.harts[h]) && Holds(h, s'.harts[h]) == Holds(h, s.harts[h]) - {l}
    requires SameHolds(s, s', h)
    ensures LocksOk(s')
  {
    hide Holds;
    assert HoldsOk(s, h);
    forall g | 0 <= g < |s.harts| ensures HoldsOk(s', g) {
      assert HoldsOk(s, g);
    }
  }

  /** No two harts hold one lock. */
  lemma OneHolder(s: State, g: nat, h: nat, l: Lock)
    requires LocksOk(s) && g < |s.harts| && h < |s.harts|
    requires l in Holds(g, s.harts[g]) && l in Holds(h, s.harts[h])
    ensures g == h
  {
    hide Holds;
    assert HoldsOk(s, g) && HoldsOk(s, h);
  }

  lemma HolderOwns(s: State, h: nat, l: Lock)
    requires LocksOk(s) && h < |s.harts| && l in Holds(h, s.harts[h])
    ensures l in s.owner && s.owner[l] == h && l in s.taken
  {
    hide Holds;
    assert HoldsOk(s, h);
  }

  // --- harts -------------------------------------------------------------------------------------

  predicate SameMail(x: Hart, x': Hart) {
    x'.msip == x.msip && x'.slot == x.slot && x'.hsm == x.hsm && x'.order == x.order && x'.handled == x.handled
    && x'.token == x.token && x'.wins == x.wins
  }

  /** A caller depends only on the mailbox, the state word and the record of claims. */
  lemma LinkSame(g: nat, b: Base, x: Hart, x': Hart)
    requires LinkOk(g, b, x) && SameMail(x, x')
    ensures LinkOk(g, b, x')
  {
  }

  predicate Keeps(b: Base, b': Base) {
    (Unposted(b) ==> Unposted(b') && b'.msg.target == b.msg.target)
    && (Starting(b, Target(b)) ==> Starting(b', Target(b)))
  }

  predicate SameQueue(s: State, s': State, k: nat) {
    QueLock(k) in s.owner ==> QueLock(k) in s'.owner && s'.owner[QueLock(k)] == s.owner[QueLock(k)]
  }

  lemma StartingTarget(b: Base, t: nat)
    requires Starting(b, t)
    ensures t == Target(b)
  {
  }

  lemma OneMoves(s: State, s': State, h: nat)
    requires Inv(s) && h < |s.harts| == |s'.harts| && s'.harts == s.harts[h := s'.harts[h]]
    requires LocksOk(s') && Local(s', h) && Linked(s', h) && BackLinkOk(s', h)
    requires Keeps(s.harts[h].base, s'.harts[h].base)
    requires forall g | 0 <= g < |s.harts| && g != h && Target(s.harts[g].base) == h ::
               LinkOk(g, s.harts[g].base, s'.harts[h])
    requires forall k | 0 <= k < |s.harts| && k != h && Ahead(s.harts[k]) == 1 :: SameQueue(s, s', k)
    ensures Inv(s')
  {
    hide LocksOk, MailOk, StateOk, HistoryOk, LinkOk;
    forall g | 0 <= g < |s.harts| ensures Local(s', g) {
      assert Local(s, g);
    }
    forall g | 0 <= g < |s.harts| ensures Linked(s', g) {
      assert Linked(s, g);
    }
    forall k | 0 <= k < |s.harts| ensures BackLinkOk(s', k) {
      assert BackLinkOk(s, k);
      if k != h && s.harts[k].token == WithSender(h) {
        StartingTarget(s.harts[h].base, k);
      }
    }
  }

  /** Hart h moves on outside the handler and touches nothing but locks. */
  lemma BaseMoves(s: State, s': State, h: nat, b': Base)
    requires Inv(s) && h < |s.harts| && s.harts[h].irq.Off?
    requires s'.harts == s.harts[h := s.harts[h].(base := b')]
    requires LocksOk(s') && PcOk(s, h, b') && !b'.ParkPost? && (AtRest(b') <==> AtRest(s.harts[h].base))
    requires Target(b') < |s.harts| && LinkOk(h, b', s.harts[Target(b')])
    requires Keeps(s.harts[h].base, b')
    requires forall k | 0 <= k < |s.harts| && Ahead(s.harts[k]) == 1 :: SameQueue(s, s', k)
    ensures Inv(s')
  {
    hide LocksOk, LinkOk, PcOk, MailOk, HistoryOk;
    var x, x' := s.harts[h], s'.harts[h];
    assert Local(s, h) && BackLinkOk(s, h) && Linked(s, h);
    assert PcOk(s', h, b') by { SamePc(s, s', h, b'); }
    assert MailOk(x') by { SameLocal(h, x, b'); }
    assert HistoryOk(h, x') by { SameLocal(h, x, b'); }
    LinkSame(h, b', s.harts[Target(b')], s'.harts[Target(b')]);
    if x.token == WithSender(h) {
      StartingTarget(x.base, h);
    }
    forall g | 0 <= g < |s.harts| && g != h && Target(s.harts[g].base) == h ensures LinkOk(g, s.harts[g].base, x') {
      assert Linked(s, g);
      LinkSame(g, s.harts[g].base, x, x');
    }
    OneMoves(s, s', h);
  }

  lemma SameLocal(h: nat, x: Hart, b: Base)
    requires MailOk(x) && HistoryOk(h, x)
    ensures MailOk(x.(base := b)) && HistoryOk(h, x.(base := b))
  {
  }

  lemma SamePc(s: State, s': State, h: nat, b: Base)
    requires PcOk(s, h, b) && |s'.harts| == |s.harts|
    ensures PcOk(s', h, b)
  {
  }

  /** Hart h moves on and changes the mailbox, the state word or the records of its target t. */
  lemma TwoMove(s: State, s': State, h: nat, t: nat)
    requires Inv(s) && h < |s.harts| && t < |s.harts| && h != t && |s'.harts| == |s.harts|
    requires s'.harts == s.harts[h := s.harts[h].(base := s'.harts[h].base)][t := s'.harts[t]]
    requires s'.harts[t].base == s.harts[t].base
    requires LocksOk(s') && Local(s', h) && Local(s', t) && Linked(s', h) && BackLinkOk(s', t)
    requires Target(s.harts[h].base) == t
    requires forall g | 0 <= g < |s.harts| && g != h && Target(s.harts[g].base) == t ::
               LinkOk(g, s.harts[g].base, s'.harts[t])
    requires forall k | 0 <= k < |s.harts| && k != t && Ahead(s.harts[k]) == 1 :: SameQueue(s, s', k)
    ensures Inv(s')
  {
    hide LocksOk, MailOk, StateOk, HistoryOk, LinkOk;
    forall g | 0 <= g < |s.harts| ensures Local(s', g) {
      assert Local(s, g);
    }
    forall g | 0 <= g < |s.harts| ensures Linked(s', g) {
      assert Linked(s, g);
      if g != h && Target(s.harts[g].base) == h {
        LinkSame(g, s.harts[g].base, s.harts[h], s'.harts[h]);
      }
    }
    forall k | 0 <= k < |s.harts| ensures BackLinkOk(s', k) {
      assert BackLinkOk(s, k);
      if k != t && s.harts[k].token == WithSender(h) {
        StartingTarget(s.harts[h].base, k);
      }
    }
  }
}
