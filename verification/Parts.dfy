/** Order-preserving parts of lists, given by the positions that are picked. */
module Parts {

  /** `part` are the elements of `whole` at the positions `at`, in order. */
  ghost predicate Picks<T>(at: seq<nat>, whole: seq<T>, part: seq<T>) {
    && |at| == |part|
    && (forall i, j :: 0 <= i < j < |at| ==> at[i] < at[j])
    && (forall i :: 0 <= i < |at| ==> at[i] < |whole| && part[i] == whole[at[i]])
  }

  /** One more element that is not picked, or is. */
  lemma PicksMore<T>(at: seq<nat>, whole: seq<T>, part: seq<T>, n: nat)
    requires n < |whole| && Picks(at, whole[..n], part)
    ensures Picks(at, whole[..n + 1], part) && Picks(at + [n], whole[..n + 1], part + [whole[n]])
  {
    var t, u := whole[..n], whole[..n + 1];
    assert forall i :: 0 <= i < n ==> t[i] == u[i];
  }

  lemma InMore(at: seq<nat>, n: nat, i: nat)
    ensures i in at + [n] <==> i in at || i == n
  {
    var more := at + [n];
    assert more[|at|] == n;
    if i in at {
      var k :| 0 <= k < |at| && at[k] == i;
      assert more[k] == i;
    }
  }

  /** The same positions one further on. */
  function Later(at: seq<nat>): (r: seq<nat>)
    ensures |r| == |at| && forall i :: 0 <= i < |at| ==> r[i] == at[i] + 1
  {
    if at == [] then [] else Later(at[..|at| - 1]) + [at[|at| - 1] + 1]
  }

  /** With or without the very first position. */
  function Shifted(first: bool, at: seq<nat>): seq<nat> {
    if first then [0] + Later(at) else Later(at)
  }

  lemma PicksShifted<T>(first: bool, at: seq<nat>, whole: seq<T>, part: seq<T>)
    requires whole != [] && Picks(at, whole[1..], part)
    ensures Picks(Shifted(first, at), whole, (if first then [whole[0]] else []) + part)
  {
  }

  lemma InShifted(first: bool, at: seq<nat>, i: nat)
    ensures i in Shifted(first, at) <==> if i == 0 then first else i - 1 in at
  {
    var s := Shifted(first, at);
    if i > 0 && i - 1 in at {
      var n :| 0 <= n < |at| && at[n] == i - 1;
      assert s[if first then n + 1 else n] == i;
    }
    assert first ==> s[0] == 0;
  }
}
