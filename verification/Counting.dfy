/** Counting the threads of a transition system that stand at given program counters. */
module Counting {

  /** The threads whose program counter satisfies `f`. */
  ghost function Those<P>(pcs: map<nat, P>, f: P -> bool): set<nat> {
    set t | t in pcs && f(pcs[t])
  }

  ghost function Count<P>(pcs: map<nat, P>, f: P -> bool): nat {
    |Those(pcs, f)|
  }

  function One(b: bool): nat {
    if b then 1 else 0
  }

  /** When one thread moves, only its own contribution changes. */
  lemma CountMove<P>(pcs: map<nat, P>, w: nat, pc: P, f: P -> bool)
    requires w in pcs
    ensures Count(pcs[w := pc], f) + One(f(pcs[w])) == Count(pcs, f) + One(f(pc))
  {
    var others := Those(pcs, f) - {w};
    assert Those(pcs, f) == if f(pcs[w]) then others + {w} else others;
    assert Those(pcs[w := pc], f) == if f(pc) then others + {w} else others;
  }

  lemma CountSome<P>(pcs: map<nat, P>, w: nat, f: P -> bool)
    requires w in pcs && f(pcs[w])
    ensures Count(pcs, f) >= 1
  {
    assert w in Those(pcs, f);
  }

  lemma CountNone<P>(pcs: map<nat, P>, f: P -> bool)
    requires forall t :: t in pcs ==> !f(pcs[t])
    ensures Count(pcs, f) == 0
  {
    assert Those(pcs, f) == {};
  }

  lemma CountWitness<P>(pcs: map<nat, P>, f: P -> bool) returns (w: nat)
    requires Count(pcs, f) > 0
    ensures w in pcs && f(pcs[w])
  {
    w :| w in Those(pcs, f);
  }
}
