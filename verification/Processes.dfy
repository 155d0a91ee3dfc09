/** Counting the processes of a step system. */
module Processes {

  /** How many of the processes are at a place with property `f`. */
  function Count<P>(procs: seq<P>, f: P -> bool): (n: nat)
    ensures n <= |procs|
  {
    if procs == [] then 0 else Count(procs[..|procs| - 1], f) + if f(procs[|procs| - 1]) then 1 else 0
  }

  /** One process moves. */
  lemma {:induction false} CountMove<P>(procs: seq<P>, f: P -> bool, p: nat, pc: P)
    requires p < |procs|
    ensures Count(procs[p := pc], f) == Count(procs, f) - (if f(procs[p]) then 1 else 0) + (if f(pc) then 1 else 0)
  {
    var k := |procs| - 1;
    if p < k {
      CountMove(procs[..k], f, p, pc);
      assert procs[p := pc][..k] == procs[..k][p := pc];
    } else {
      assert procs[p := pc][..k] == procs[..k];
    }
  }

  lemma {:induction false} CountSome<P>(procs: seq<P>, f: P -> bool, p: nat)
    requires p < |procs| && f(procs[p])
    ensures Count(procs, f) > 0
  {
    if p < |procs| - 1 {
      CountSome(procs[..|procs| - 1], f, p);
    }
  }

  lemma {:induction false} CountNone<P>(procs: seq<P>, f: P -> bool)
    requires forall p :: 0 <= p < |procs| ==> !f(procs[p])
    ensures Count(procs, f) == 0
  {
    if procs != [] {
      CountNone(procs[..|procs| - 1], f);
    }
  }
}
