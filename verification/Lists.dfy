/** Lists without repetition, of threads, timers or block offsets. */
module Lists {
  ghost predicate Distinct(list: seq<nat>) { forall i, j :: 0 <= i < j < |list| ==> list[i] != list[j] }

  /** rt_list_remove of the node of t */
  function Without(list: seq<nat>, t: nat): seq<nat> {
    if list == [] then [] else if list[0] == t then list[1..] else [list[0]] + Without(list[1..], t)
  }

  lemma {:induction false} WithoutMembers(list: seq<nat>, t: nat)
    requires Distinct(list)
    ensures forall x :: x in Without(list, t) <==> x in list && x != t
    ensures Distinct(Without(list, t))
    ensures t in list ==> |Without(list, t)| == |list| - 1
    ensures t !in list ==> Without(list, t) == list
  {
    if list != [] {
      assert list == [list[0]] + list[1..];
      WithoutMembers(list[1..], t);
      if list[0] != t {
        assert list[0] !in list[1..];
      }
    }
  }
}
