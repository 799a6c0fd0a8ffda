/**
 * `calculate_totals`: the number of SSH processes and the sums of their
 * cpu%, mem%, RSS and VSZ. Percentages are exact reals here, so the sums
 * do not depend on the order the records are added in.
 */
module Totals {
  import opened Processes

  /** The `totals` dict: count, cpu%, mem%, rss_kb, vsz_kb. */
  datatype Totals = Totals(count: nat, cpu: real, mem: real, rssKb: nat, vszKb: nat)

  /** The dict before the loop adds anything, for an empty list. */
  const Zero: Totals := Totals(0, 0.0, 0.0, 0, 0)

  /** Field-by-field sum of two totals. */
  function Plus(a: Totals, b: Totals): Totals {
    Totals(a.count + b.count, a.cpu + b.cpu, a.mem + b.mem, a.rssKb + b.rssKb, a.vszKb + b.vszKb)
  }

  /** The totals of a list holding just `p`. */
  function Single(p: Process): Totals {
    Totals(1, p.cpu, p.mem, p.rss, p.vsz)
  }

  /** The totals of a list of records: the reference definition the loop is proved against. */
  function Sum(ps: seq<Process>): (t: Totals)
    ensures t.count == |ps|
    decreases |ps|
  {
    if ps == [] then Zero else Plus(Sum(ps[..|ps| - 1]), Single(ps[|ps| - 1]))
  }

  /**
   * The loop of `calculate_totals`: `count` is the length of the list, set
   * before the loop; each record adds its cpu%, mem%, rss and vsz.
   */
  method CalculateTotals(processes: seq<Process>) returns (totals: Totals)
    ensures totals == Sum(processes)
  {
    totals := Totals(|processes|, 0.0, 0.0, 0, 0);
    var i := 0;
    while i < |processes|
      invariant 0 <= i <= |processes|
      invariant totals == Sum(processes[..i]).(count := |processes|)
    {
      var proc := processes[i];
      assert processes[..i + 1][..i] == processes[..i];
      totals := totals.(cpu := totals.cpu + proc.cpu, mem := totals.mem + proc.mem,
                        rssKb := totals.rssKb + proc.rss, vszKb := totals.vszKb + proc.vsz);
      i := i + 1;
    }
    assert processes[..i] == processes;
  }

  /** Totals of a concatenation are the sum of the totals of its parts. */
  lemma {:induction false} SumAppend(a: seq<Process>, b: seq<Process>)
    ensures Sum(a + b) == Plus(Sum(a), Sum(b))
    decreases |b|
  {
    if b == [] {
      assert a + b == a;
      assert Sum(b) == Zero;
    } else {
      var init, last := b[..|b| - 1], b[|b| - 1];
      assert (a + b)[..|a + b| - 1] == a + init;
      assert (a + b)[|a + b| - 1] == last;
      SumAppend(a, init);
      calc {
        Sum(a + b);
        Plus(Sum(a + init), Single(last));
        Plus(Plus(Sum(a), Sum(init)), Single(last));
        Plus(Sum(a), Plus(Sum(init), Single(last)));
        Plus(Sum(a), Sum(b));
      }
    }
  }

  lemma SumSingle(p: Process)
    ensures Sum([p]) == Single(p)
  {
    assert [p][..0] == [];
  }

  lemma PlusRegroup(a: Totals, x: Totals, r: Totals)
    ensures Plus(Plus(a, x), r) == Plus(Plus(a, r), x)
  {
  }

  /** Taking a record out of a list takes its share out of the totals. */
  lemma SumRemove(front: seq<Process>, x: Process, back: seq<Process>)
    ensures Sum(front + [x] + back) == Plus(Sum(front + back), Single(x))
  {
    assert Sum(front + [x] + back) == Plus(Sum(front + [x]), Sum(back)) by {
      SumAppend(front + [x], back);
    }
    assert Sum(front + [x]) == Plus(Sum(front), Single(x)) by {
      SumAppend(front, [x]);
      SumSingle(x);
    }
    assert Sum(front + back) == Plus(Sum(front), Sum(back)) by {
      SumAppend(front, back);
    }
    PlusRegroup(Sum(front), Single(x), Sum(back));
  }

  lemma MultisetRemove(b: seq<Process>, j: nat)
    requires j < |b|
    ensures multiset(b) == multiset(b[..j] + b[j + 1..]) + multiset{b[j]}
  {
    assert b == b[..j] + [b[j]] + b[j + 1..];
  }

  /** Where a record of the multiset of b sits in b. */
  lemma Position(b: seq<Process>, x: Process) returns (j: nat)
    requires x in multiset(b)
    ensures j < |b| && b[j] == x
  {
    assert x in b;
    j :| 0 <= j < |b| && b[j] == x;
  }

  /** Taking the same record out of two permutations of each other leaves permutations. */
  lemma MultisetCancel(init: seq<Process>, b: seq<Process>, j: nat)
    requires j < |b| && multiset(init + [b[j]]) == multiset(b)
    ensures multiset(init) == multiset(b[..j] + b[j + 1..])
  {
    var rest := b[..j] + b[j + 1..];
    MultisetRemove(b, j);
    forall x ensures multiset(init)[x] == multiset(rest)[x] {
      assert multiset(init + [b[j]])[x] == multiset(init)[x] + multiset{b[j]}[x];
      assert multiset(b)[x] == multiset(rest)[x] + multiset{b[j]}[x];
    }
  }

  /**
   * The last record of a, found somewhere in its permutation b: what is
   * left of b is a permutation of the rest of a, and b's totals are those
   * of what is left plus that record.
   */
  lemma RemoveLast(a: seq<Process>, b: seq<Process>) returns (rest: seq<Process>)
    requires a != [] && multiset(a) == multiset(b)
    ensures multiset(a[..|a| - 1]) == multiset(rest)
    ensures Sum(b) == Plus(Sum(rest), Single(a[|a| - 1]))
  {
    var init, last := a[..|a| - 1], a[|a| - 1];
    assert a == init + [last];
    var j := Position(b, last);
    rest := b[..j] + b[j + 1..];
    MultisetCancel(init, b, j);
    assert b == b[..j] + [b[j]] + b[j + 1..];
    SumRemove(b[..j], b[j], b[j + 1..]);
  }

  /** The totals do not depend on the order of the records. */
  lemma {:induction false} SumPermutation(a: seq<Process>, b: seq<Process>)
    requires multiset(a) == multiset(b)
    ensures Sum(a) == Sum(b)
    decreases |a|
  {
    if a != [] {
      var rest := RemoveLast(a, b);
      SumPermutation(a[..|a| - 1], rest);
    }
  }

  /** No record's RSS or VSZ exceeds the total. */
  lemma {:induction false} SumBounds(ps: seq<Process>, i: nat)
    requires i < |ps|
    ensures ps[i].rss <= Sum(ps).rssKb && ps[i].vsz <= Sum(ps).vszKb
    decreases |ps|
  {
    if i < |ps| - 1 {
      SumBounds(ps[..|ps| - 1], i);
    }
  }
}
