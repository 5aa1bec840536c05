/** Runs that keep a property: what each step does to it decides what the whole run does. */
module RunInvariants {
  predicate AllTrue(bs: seq<bool>, n: nat)
    requires n <= |bs|
  {
    forall i :: 0 <= i < n ==> bs[i]
  }

  /** If each state is kept by exactly the clean events, all are kept by exactly clean runs. */
  lemma {:induction false} AllKeptIff(kept: seq<bool>, clean: seq<bool>, n: nat)
    requires |kept| == |clean| + 1 && kept[0] && n <= |clean|
    requires forall i :: 0 <= i < |clean| && kept[i] ==> kept[i + 1] == clean[i]
    ensures AllTrue(kept, n + 1) <==> AllTrue(clean, n)
  {
    if n > 0 {
      AllKeptIff(kept, clean, n - 1);
      assert kept[n - 1] ==> kept[n - 1 + 1] == clean[n - 1];
    }
  }
}
