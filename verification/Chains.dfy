/** Things held in lists: where each one is, and that none is in two places. */
module Chains {
  type Id = nat

  /** All things held in a sequence of chains. */
  function Held(chains: seq<seq<Id>>): multiset<Id> {
    if chains == [] then multiset{} else multiset(chains[0]) + Held(chains[1..])
  }

  lemma HeldFirst(chains: seq<seq<Id>>)
    requires chains != []
    ensures Held(chains) == multiset(chains[0]) + Held(chains[1..])
  {
  }

  lemma {:induction false} HeldUpdate(chains: seq<seq<Id>>, i: nat, c: seq<Id>)
    requires i < |chains|
    ensures Held(chains[i := c]) + multiset(chains[i]) == Held(chains) + multiset(c)
  {
    hide Held;
    HeldFirst(chains);
    HeldFirst(chains[i := c]);
    if i == 0 {
      assert chains[0 := c][1..] == chains[1..];
    } else {
      var rest := chains[1..];
      assert chains[i := c][1..] == rest[i - 1 := c] && rest[i - 1] == chains[i];
      HeldUpdate(rest, i - 1, c);
      var a, b := Held(rest[i - 1 := c]), Held(rest);
      assert multiset(chains[0]) + a + multiset(chains[i]) == multiset(chains[0]) + (a + multiset(chains[i]));
    }
  }

  lemma HeldClear(chains: seq<seq<Id>>, i: nat)
    requires i < |chains|
    ensures Held(chains[i := []]) + multiset(chains[i]) == Held(chains)
  {
    HeldUpdate(chains, i, []);
    var nothing: seq<Id> := [];
    assert multiset(nothing) == multiset{};
  }

  lemma {:induction false} HeldMember(chains: seq<seq<Id>>, i: nat, x: Id)
    requires i < |chains| && x in chains[i]
    ensures x in Held(chains)
  {
    if i > 0 {
      HeldMember(chains[1..], i - 1, x);
    }
  }

  /** Nothing is held in two places. */
  ghost predicate Unique(m: multiset<Id>) {
    forall x :: x in m ==> m[x] == 1
  }

  lemma HeldTwice(chains: seq<seq<Id>>, pool: seq<Id>, i: nat, j: nat, x: Id)
    requires i < |chains| && j < |chains| && x in chains[i]
    ensures x in pool || (i != j && x in chains[j]) ==> (multiset(pool) + Held(chains))[x] >= 2
  {
    HeldMember(chains, i, x);
    HeldClear(chains, i);
    var rest := chains[i := []];
    if i != j && x in chains[j] {
      assert rest[j] == chains[j];
      HeldMember(rest, j, x);
      assert (Held(rest) + multiset(chains[i]))[x] >= 2;
    }
  }

  /** Moving a chain from one slot to an empty one. */
  lemma SlotToSlot(chains: seq<seq<Id>>, i: nat, j: nat)
    requires i < |chains| && j < |chains| && i != j && chains[j] == []
    ensures Held(chains[i := []][j := chains[i]]) == Held(chains)
  {
    HeldClear(chains, i);
    HeldUpdate(chains[i := []], j, chains[i]);
    var nothing: seq<Id> := [];
    assert multiset(nothing) == multiset{};
  }

  lemma Cancel(a: multiset<Id>, b: multiset<Id>, c: multiset<Id>)
    requires a + c == b + c
    ensures a == b
  {
    forall x
      ensures a[x] == b[x]
    {
      assert (a + c)[x] == (b + c)[x];
    }
  }

  lemma NewIsUnique(m: multiset<Id>, x: Id)
    ensures Unique(m) && x !in m ==> Unique(m + multiset{x})
  {
  }

  lemma {:induction false} HeldNone(chains: seq<seq<Id>>)
    requires forall i :: 0 <= i < |chains| ==> chains[i] == []
    ensures Held(chains) == multiset{}
  {
    if chains != [] {
      HeldNone(chains[1..]);
      var nothing: seq<Id> := [];
      assert multiset(nothing) == multiset{};
    }
  }
}
