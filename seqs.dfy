/** Regrouping facts about sequences. Each one is a single extensionality
    step, kept apart so that a proof about byte strings or rows can take it
    without the solver searching for it among the rest of its context. */
module Seqs {

  lemma HeadTail<T>(s: seq<T>)
    requires s != []
    ensures s == [s[0]] + s[1..]
  {
  }

  lemma InitLast<T>(s: seq<T>)
    requires s != []
    ensures s == s[..|s| - 1] + [s[|s| - 1]]
  {
  }

  lemma SliceCons<T>(s: seq<T>, k: nat)
    requires k < |s|
    ensures s[k..] == [s[k]] + s[k + 1..]
  {
  }

  lemma SplitTwo<T>(s: seq<T>)
    requires |s| == 2
    ensures [s[0], s[1]] + [] == s
  {
  }

  lemma SplitThree<T>(s: seq<T>)
    requires |s| >= 3
    ensures [s[0], s[1], s[2]] + s[3..] == s
  {
  }

  lemma Regroup<T>(a: seq<T>, b: seq<T>, c: seq<T>, d: seq<T>)
    ensures a + b + c + d == a + (b + (c + d))
  {
  }

  lemma SliceSplit<T>(s: seq<T>, i: nat, a: seq<T>, b: seq<T>)
    requires i + |a| + |b| <= |s| && s[i..i + |a| + |b|] == a + b
    ensures s[i..i + |a|] == a
    ensures s[i + |a|..i + |a| + |b|] == b
  {
    var w := s[i..i + |a| + |b|];
    assert s[i..i + |a|] == w[..|a|] == a;
    assert s[i + |a|..i + |a| + |b|] == w[|a|..] == b;
  }
}
