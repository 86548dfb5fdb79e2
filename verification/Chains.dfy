/**
  Histories of a stored value: every version is one write applied to the version
  before it, the first to the absent value.
 */
module Chains {
  import opened Wrappers

  type StepFunction<!S, !E> = (Option<S>, E) -> Option<S>

  function Before<S>(versions: seq<S>, i: nat): Option<S>
    requires i <= |versions|
  {
    if i == 0 then None else Some(versions[i - 1])
  }

  ghost predicate Chain<S, E>(step: StepFunction<S, E>, versions: seq<S>, writes: seq<E>) {
    && |versions| == |writes|
    && forall i :: 0 <= i < |versions| ==> Some(versions[i]) == step(Before(versions, i), writes[i])
  }

  function Fold<S, E>(step: StepFunction<S, E>, s: Option<S>, writes: seq<E>): Option<S>
    decreases |writes|
  {
    if writes == [] then s else step(Fold(step, s, writes[..|writes| - 1]), writes[|writes| - 1])
  }

  lemma ChainExtends<S, E>(step: StepFunction<S, E>, versions: seq<S>, writes: seq<E>, next: S, e: E)
    requires Chain(step, versions, writes)
    requires Some(next) == step(Before(versions, |versions|), e)
    ensures Chain(step, versions + [next], writes + [e])
  {
    var versions', writes' := versions + [next], writes + [e];
    forall i | 0 <= i < |versions'| ensures Some(versions'[i]) == step(Before(versions', i), writes'[i]) {
      assert Before(versions', i) == Before(versions, i);
    }
  }

  /** The last version of a chain is its writes applied one after the other. */
  lemma {:induction false} ChainIsAFold<S, E>(step: StepFunction<S, E>, versions: seq<S>, writes: seq<E>)
    requires Chain(step, versions, writes)
    ensures Fold(step, None, writes) == Before(versions, |versions|)
    decreases |versions|
  {
    if versions != [] {
      var n := |versions| - 1;
      forall i | 0 <= i < n ensures Some(versions[..n][i]) == step(Before(versions[..n], i), writes[..n][i]) {
        assert Before(versions[..n], i) == Before(versions, i);
      }
      ChainIsAFold(step, versions[..n], writes[..n]);
    }
  }

  /** Logs that only grow from one version to the next grow over any distance. */
  lemma {:induction false} LogsGrow<T>(logs: seq<seq<T>>, i: nat, j: nat)
    requires i <= j < |logs|
    requires forall k :: i < k <= j ==> logs[k - 1] <= logs[k]
    ensures logs[i] <= logs[j]
    decreases j - i
  {
    if i < j {
      LogsGrow(logs, i, j - 1);
      assert logs[j - 1] <= logs[j];
    }
  }
}
