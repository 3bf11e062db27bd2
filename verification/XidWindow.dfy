/** The client's record of finished calls: `xid_rep_window_` and `update_xid_rep`. */
module XidWindow {

  predicate Sorted(w: seq<nat>) {
    forall i, j :: 0 <= i < j < |w| ==> w[i] <= w[j]
  }

  /** The largest n, counting up from `n0`, such that every number after `n0` up to n is in `s`. */
  function FrontFrom(s: set<nat>, n0: nat): (n: nat)
    ensures n0 <= n
    ensures forall x :: n0 < x <= n ==> x in s
    ensures n + 1 !in s
    decreases s
  {
    if n0 + 1 in s then
      FrontFrom(s - {n0 + 1}, n0 + 1)
    else n0
  }

  /** The acknowledgement that goes with a set of finished calls. */
  function Front(finished: set<nat>): nat {
    FrontFrom(finished, 0)
  }

  /** The acknowledgement is the only number whose predecessors are all finished and whose
      successor is not. */
  lemma FrontIsUnique(finished: set<nat>, n: nat)
    requires forall x :: 0 < x <= n ==> x in finished
    requires n + 1 !in finished
    ensures n == Front(finished)
  {
    var front := Front(finished);
    var a, b := n + 1, front + 1;
    assert a in finished || front < a;
    assert b in finished || n < b;
  }

  /** The list `w` stands for the set `finished`: its head is the acknowledgement, and its members
      are exactly the finished calls that are not below the head. */
  ghost predicate Represents(w: seq<nat>, finished: set<nat>) {
    && |w| > 0
    && Sorted(w)
    && (forall x: nat :: x <= w[0] ==> x in finished)
    && w[0] + 1 !in finished
    && (forall x :: x in w <==> x in finished && w[0] <= x)
  }

  /** The head of any list that stands for `finished` is the acknowledgement, so the list carries
      no more information than the set. */
  lemma HeadIsFront(w: seq<nat>, finished: set<nat>)
    requires Represents(w, finished)
    ensures w[0] == Front(finished)
  {
    FrontIsUnique(finished, w[0]);
  }

  class Window {
    var list: seq<nat>
    ghost var finished: set<nat>

    ghost predicate Valid()
      reads this
    {
      Represents(list, finished)
    }

    constructor ()
      ensures Valid() && finished == {0} && list == [0]
    {
      list := [0];
      finished := {0};
    }

    /** Inserts `xid` before the first larger element, repeats included. */
    method Insert(xid: nat)
      requires Sorted(list) && |list| > 0 && list[0] < xid
      modifies this`list
      ensures Sorted(list) && |list| == |old(list)| + 1 && list[0] == old(list)[0]
      ensures forall x :: x in list <==> x in old(list) || x == xid
    {
      var it := 0;
      while it < |list|
        invariant 0 <= it <= |list|
        invariant forall j :: 0 <= j < it ==> list[j] <= xid
      {
        if list[it] > xid {
          break;
        }
        it := it + 1;
      }
      ghost var was := list;
      list := list[..it] + [xid] + list[it..];
      assert was == was[..it] + was[it..];
      assert list[it] == xid;
    }

    /** One pass over the list that pops the head whenever the element under the iterator is its
        successor. */
    method Compress(ghost done: set<nat>)
      requires Sorted(list) && |list| > 0
      requires forall x: nat :: x <= list[0] ==> x in done
      requires forall x :: x in list <==> x in done && list[0] <= x
      modifies this`list
      ensures Represents(list, done)
    {
      var it := 1;
      while it < |list|
        invariant 0 < |list| && 0 <= it <= |list|
        invariant Sorted(list)
        invariant forall x: nat :: x <= list[0] ==> x in done
        invariant forall x :: x in list <==> x in done && list[0] <= x
        invariant forall j :: 0 <= j < it ==> list[j] != list[0] + 1
        decreases |list| - it
      {
        ghost var n := |list| - it;
        while list[0] + 1 == list[it]
          invariant 0 <= it < |list| && |list| - it == n
          invariant Sorted(list)
          invariant forall x: nat :: x <= list[0] ==> x in done
          invariant forall x :: x in list <==> x in done && list[0] <= x
          invariant forall j :: 0 <= j < it ==> list[j] != list[0] + 1
          decreases it
        {
          assert it > 0;
          ghost var was := list;
          assert forall j :: 0 <= j < it ==> was[j] == was[0];
          assert forall x: nat :: x <= list[1] ==> x in done by {
            assert list[1] in list;
          }
          list := list[1..];
          it := it - 1;
          assert forall x :: x in was <==> x == was[0] || x in list;
          assert forall x :: x in list ==> list[0] <= x;
        }
        it := it + 1;
      }
      ghost var next := list[0] + 1;
      assert next in list || next !in done;
    }

    method UpdateXidRep(xid: nat)
      requires Valid()
      modifies this
      ensures Valid()
      ensures finished == old(finished) + {xid}
      ensures list[0] == Front(finished)
    {
      HeadIsFront(list, finished);
      finished := finished + {xid};
      if xid <= list[0] {
        assert finished == old(finished);
        return;
      }
      Insert(xid);
      Compress(finished);
      HeadIsFront(list, finished);
    }
  }
}
