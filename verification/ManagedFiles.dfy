/**
  The managed files of a deployment, written one atomic replacement at a time.
  A write may be refused (its target keeps the previous complete version) or may
  land and still be reported as failed, because the ownership of the new file is
  enforced after the rename.
 */
module ManagedFiles {

  type Bytes = seq<nat>

  datatype Outcome = Done | Refused | DoneButFailed

  /** p holds the same contents in both, or is absent from both. */
  predicate SameAt<Path(==)>(a: map<Path, Bytes>, b: map<Path, Bytes>, p: Path) {
    && (p in a <==> p in b)
    && (p in a ==> a[p] == b[p])
  }

  class FileStore<Path(==)> {
    var files: map<Path, Bytes>

    /** How many writes and removals have been tried. */
    var tried: nat

    /** How each try goes. */
    const outcome: nat -> Outcome

    constructor (files: map<Path, Bytes>, outcome: nat -> Outcome)
      ensures this.files == files && this.outcome == outcome && tried == 0
    {
      this.files, this.outcome, tried := files, outcome, 0;
    }

    method Write(p: Path, contents: Bytes) returns (ok: bool)
      modifies this
      ensures tried == old(tried) + 1
      ensures ok <==> outcome(old(tried)) == Done
      ensures files == if outcome(old(tried)) == Refused then old(files) else old(files)[p := contents]
    {
      var o := outcome(tried);
      tried := tried + 1;
      if o != Refused {
        files := files[p := contents];
      }
      ok := o == Done;
    }

    method Remove(p: Path) returns (ok: bool)
      modifies this
      ensures tried == old(tried) + 1
      ensures ok <==> outcome(old(tried)) == Done
      ensures files == if ok then old(files) - {p} else old(files)
    {
      ok := outcome(tried) == Done;
      tried := tried + 1;
      if ok {
        files := files - {p};
      }
    }

    ghost predicate AllDone(first: nat, last: nat) { AllWell(outcome, first, last) }

    ghost predicate OneFailure(first: nat, last: nat) { AtMostOneFailure(outcome, first, last) }
  }

  /** Every try from `first` up to `last` goes well. */
  ghost predicate AllWell(outcome: nat -> Outcome, first: nat, last: nat) {
    forall k :: first <= k < last ==> outcome(k) == Done
  }

  /** At most one try from `first` up to `last` does not go well. */
  ghost predicate AtMostOneFailure(outcome: nat -> Outcome, first: nat, last: nat) {
    forall j, k :: first <= j < k < last ==> outcome(j) == Done || outcome(k) == Done
  }

  /** Tries that all went well add nothing to what is said of the later ones. */
  lemma GoodStart(outcome: nat -> Outcome, first: nat, middle: nat, last: nat)
    requires first <= middle <= last && AllWell(outcome, first, middle)
    ensures AllWell(outcome, first, last) <==> AllWell(outcome, middle, last)
    ensures AtMostOneFailure(outcome, first, last) <==> AtMostOneFailure(outcome, middle, last)
  {
    forall j, k | first <= j < k < last && AtMostOneFailure(outcome, middle, last) ensures outcome(j) == Done || outcome(k) == Done {
      if middle <= j {
        assert outcome(j) == Done || outcome(k) == Done;
      }
    }
  }
}
