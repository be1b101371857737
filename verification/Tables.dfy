/** Validation as a table: a list of requirements in the order in which they are checked, each with the
    failure that is reported when it is the first one that is not met. */
module Tables {
  import opened Text

  /** What is required, and the failure when it is not met. */
  datatype Line<+E> = Line(passes: bool, failure: E)

  /** The answer is the failure of the first line that does not pass, and none when all pass. */
  ghost predicate Decides<E>(checks: seq<Line<E>>, answer: Option<E>) {
    if answer.None? then forall i | 0 <= i < |checks| :: checks[i].passes
    else exists i: nat :: FailsFirst(checks, i) && checks[i].failure == answer.value
  }

  predicate FailsFirst<E>(checks: seq<Line<E>>, i: nat) {
    i < |checks| && !checks[i].passes && forall j | 0 <= j < i :: checks[j].passes
  }

  predicate Passes<E>(checks: seq<Line<E>>) {
    forall i | 0 <= i < |checks| :: checks[i].passes
  }

  lemma PassesExactly<E>(checks: seq<Line<E>>, answer: Option<E>)
    requires Decides(checks, answer)
    ensures Passes(checks) <==> answer.None?
  {
  }

  /** A table has one answer. */
  lemma DecidesOnce<E>(checks: seq<Line<E>>, a: Option<E>, b: Option<E>)
    requires Decides(checks, a) && Decides(checks, b)
    ensures a == b
  {
    if a.Some? {
      var i: nat :| FailsFirst(checks, i) && checks[i].failure == a.value;
      if b.Some? {
        var j: nat :| FailsFirst(checks, j) && checks[j].failure == b.value;
        assert i == j;
      }
    }
  }

  /** Tables one after the other. */
  lemma DecidesConcat<E>(a: seq<Line<E>>, b: seq<Line<E>>, x: Option<E>, y: Option<E>)
    requires Decides(a, x) && Decides(b, y)
    ensures Decides(a + b, if x.Some? then x else y)
  {
    var checks := a + b;
    if x.Some? {
      var i: nat :| FailsFirst(a, i) && a[i].failure == x.value;
      assert FailsFirst(checks, i) && checks[i].failure == x.value;
    } else if y.Some? {
      var i: nat :| FailsFirst(b, i) && b[i].failure == y.value;
      var k := |a| + i;
      assert checks[k] == b[i];
      assert FailsFirst(checks, k) && checks[k].failure == y.value;
    }
  }

  lemma DecidedEarly<E>(a: seq<Line<E>>, b: seq<Line<E>>, x: Option<E>)
    requires Decides(a, x) && x.Some?
    ensures Decides(a + b, x)
  {
    var i: nat :| FailsFirst(a, i) && a[i].failure == x.value;
    assert FailsFirst(a + b, i) && (a + b)[i].failure == x.value;
  }

  function Chain<E>(tables: seq<seq<Line<E>>>): seq<Line<E>> {
    if tables == [] then [] else Chain(tables[..|tables| - 1]) + tables[|tables| - 1]
  }

  /** Tables in a row answer as the first that does not pass. */
  lemma {:induction false} ChainDecides<E>(tables: seq<seq<Line<E>>>, n: nat, answer: Option<E>)
    requires n <= |tables| && (answer.None? <==> n == |tables|)
    requires forall i | 0 <= i < n :: Decides(tables[i], None)
    requires n < |tables| ==> Decides(tables[n], answer)
    ensures Decides(Chain(tables), answer)
    decreases |tables|
  {
    if tables == [] {
    } else {
      var last := |tables| - 1;
      if n < last {
        ChainDecides(tables[..last], n, answer);
        DecidedEarly(Chain(tables[..last]), tables[last], answer);
      } else {
        ChainDecides(tables[..last], last, None);
        DecidesConcat(Chain(tables[..last]), tables[last], None, answer);
      }
    }
  }
}
