/** The titles `add_new_note` probes when the requested title is taken:
    the title itself, then "title (1)", "title (2)", and so on. */
module Titles {
  import opened Decimal

  /** The k-th title probed for `title`; probe 0 is the title itself. */
  function Candidate(title: string, k: nat): string {
    if k == 0 then title else title + " (" + NatToString(k) + ")"
  }

  /** Probe 0 is the title; a later probe k is the title, then " (", a
      canonical decimal number that reads back as k, and a closing ")". */
  lemma CandidateShape(title: string, k: nat)
    ensures k == 0 ==> Candidate(title, k) == title
    ensures k > 0 ==>
      var r := Candidate(title, k);
      && |r| >= |title| + 4
      && r[..|title|] == title
      && r[|title|..|title| + 2] == " ("
      && r[|r| - 1] == ')'
      && IsCanonical(r[|title| + 2..|r| - 1])
      && StringToNat(r[|title| + 2..|r| - 1]) == k
  {
    if k > 0 {
      var r := Candidate(title, k);
      StringToNatOfNatToString(k);
      assert r[|title| + 2..|r| - 1] == NatToString(k);
    }
  }

  /** The first probes, written out. */
  lemma FirstProbes(title: string)
    ensures Candidate(title, 0) == title
    ensures Candidate(title, 1) == title + " (1)"
    ensures Candidate(title, 2) == title + " (2)"
  {
  }

  /** Different probes of one title are different strings. */
  lemma CandidateInjective(title: string, i: nat, j: nat)
    requires Candidate(title, i) == Candidate(title, j)
    ensures i == j
  {
    if i != 0 && j != 0 {
      var ci, si, sj := Candidate(title, i), NatToString(i), NatToString(j);
      assert |si| == |sj|;
      assert si == ci[|title| + 2 .. |ci| - 1];
      assert sj == ci[|title| + 2 .. |ci| - 1];
      NatToStringInjective(i, j);
    }
  }

  lemma CandidateDistinct(title: string, k: nat)
    ensures forall j: nat :: j != k ==> Candidate(title, j) != Candidate(title, k)
  {
    forall j: nat | Candidate(title, j) == Candidate(title, k)
      ensures j == k
    {
      CandidateInjective(title, j, k);
    }
  }

  /** The first n probes of `title`, as a set. */
  function CandidatesBelow(title: string, n: nat): (r: set<string>)
    ensures forall j: nat :: Candidate(title, j) in r <==> j < n
    ensures |r| == n
  {
    if n == 0 then {}
    else
      CandidateDistinct(title, n - 1);
      CandidatesBelow(title, n - 1) + {Candidate(title, n - 1)}
  }

  /** The first probe, from k on, that is not a key: the title `add_new_note`
      settles on when called with k == 0. */
  function FirstFree(title: string, keys: set<string>, k: nat): (r: nat)
    ensures k <= r
    ensures Candidate(title, r) !in keys
    ensures forall j :: k <= j < r ==> Candidate(title, j) in keys
    decreases keys - CandidatesBelow(title, k)
  {
    if Candidate(title, k) !in keys then k else FirstFree(title, keys, k + 1)
  }

  /** Pigeonhole: n pairwise-distinct probes that all collide need n keys. */
  lemma CollisionBound(title: string, keys: set<string>, n: nat)
    requires forall j :: 0 <= j < n ==> Candidate(title, j) in keys
    ensures n <= |keys|
  {
    var probed := CandidatesBelow(title, n);
    forall s | s in probed ensures s in keys {
      ProbedIsCandidate(title, n, s);
    }
    SubsetCardinality(probed, keys);
  }

  /** Every member of `CandidatesBelow(title, n)` is one of the first n probes. */
  lemma {:induction false} ProbedIsCandidate(title: string, n: nat, s: string)
    requires s in CandidatesBelow(title, n)
    ensures exists j :: 0 <= j < n && s == Candidate(title, j)
  {
    if s != Candidate(title, n - 1) {
      ProbedIsCandidate(title, n - 1, s);
    }
  }

  lemma {:induction false} SubsetCardinality<T>(a: set<T>, b: set<T>)
    requires a <= b
    ensures |a| <= |b|
    decreases a
  {
    if a != {} {
      var x :| x in a;
      SubsetCardinality(a - {x}, b - {x});
    }
  }

  /** At most |keys| probes collide, so `add_new_note` never probes past
      "title (|keys|)". */
  lemma FirstFreeBound(title: string, keys: set<string>)
    ensures FirstFree(title, keys, 0) <= |keys|
  {
    CollisionBound(title, keys, FirstFree(title, keys, 0));
  }

  /** A title that is not a key is used as it is. */
  lemma FirstFreeOfUnusedTitle(title: string, keys: set<string>)
    ensures FirstFree(title, keys, 0) == 0 <==> title !in keys
  {
  }

  /** When no probe of `title` is a key, the k-th call of `add_new_note(title)`
      (counting from 0) finds the first k probes taken by the earlier calls
      and settles on probe k. */
  lemma SuccessiveAdds(title: string, keys: set<string>, k: nat)
    requires forall j: nat :: Candidate(title, j) !in keys
    ensures FirstFree(title, keys + CandidatesBelow(title, k), 0) == k
  {
    var taken := keys + CandidatesBelow(title, k);
    var f := FirstFree(title, taken, 0);
    assert k <= f by { assert Candidate(title, f) !in CandidatesBelow(title, k); }
    assert f <= k by { assert Candidate(title, k) !in taken; }
  }
}
