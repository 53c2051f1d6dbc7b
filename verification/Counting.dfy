/** Counting the threads whose program counter satisfies a predicate.
    A thread that is absent from the map is outside every operation. */
module Counting {

  ghost function Members<P>(pcs: map<nat, P>, c: P -> bool): set<nat> {
    set t | t in pcs && c(pcs[t])
  }

  ghost function Count<P>(pcs: map<nat, P>, c: P -> bool): nat {
    |Members(pcs, c)|
  }

  /** Does thread t satisfy c? 1 if so, 0 otherwise. */
  ghost function At<P>(pcs: map<nat, P>, t: nat, c: P -> bool): nat {
    if t in pcs && c(pcs[t]) then 1 else 0
  }

  /** Moving one thread changes a count by what that thread contributes. */
  lemma CountUpdate<P>(pcs: map<nat, P>, t: nat, p: P, c: P -> bool)
    ensures Count(pcs[t := p], c) == Count(pcs, c) - At(pcs, t, c) + (if c(p) then 1 else 0)
  {
    var rest := Members(pcs, c) - {t};
    assert Members(pcs[t := p], c) == if c(p) then rest + {t} else rest;
    assert t in Members(pcs, c) ==> Members(pcs, c) == rest + {t};
  }

  /** A thread that satisfies c is counted. */
  lemma CountPositive<P>(pcs: map<nat, P>, t: nat, c: P -> bool)
    requires t in pcs && c(pcs[t])
    ensures Count(pcs, c) >= 1
  {
    assert t in Members(pcs, c);
  }

  /** Two different threads that satisfy c make the count at least two. */
  lemma CountTwo<P>(pcs: map<nat, P>, t: nat, u: nat, c: P -> bool)
    requires t != u && t in pcs && c(pcs[t]) && u in pcs && c(pcs[u])
    ensures Count(pcs, c) >= 2
  {
    assert Members(pcs, c) == (Members(pcs, c) - {t}) + {t};
    assert u in Members(pcs, c) - {t};
  }

  /** A positive count has a witness. */
  lemma CountWitness<P>(pcs: map<nat, P>, c: P -> bool) returns (t: nat)
    requires Count(pcs, c) > 0
    ensures t in pcs && c(pcs[t])
  {
    t :| t in Members(pcs, c);
  }

  /** A count is zero exactly when no thread satisfies the predicate. */
  lemma CountZero<P>(pcs: map<nat, P>, c: P -> bool)
    ensures Count(pcs, c) == 0 <==> forall t :: t in pcs ==> !c(pcs[t])
  {
    if Count(pcs, c) > 0 {
      var t := CountWitness(pcs, c);
    }
    forall t | t in pcs && c(pcs[t]) ensures Count(pcs, c) > 0 {
      CountPositive(pcs, t, c);
    }
  }
}
