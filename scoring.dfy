/** `score_node` and `set_scores`: every node that has a set `S` gets the
    score

        weight_ratio * (setTextCnt - setLinkCnt) / setTextCnt
      + weight_text * setTextCnt / page_text

    where `page_text` is the number of words of the whole page. A division
    by zero leaves the node without a score. Scores are exact reals here. */
module Scoring {
  import opened Tree
  import opened Subsets

  const WeightRatio: real := 0.95
  const WeightText: real := 0.05

  /** `score_node`: only a node that went through the counting branch of
      `create_subsets` (it has `S`) is scored; when its set has no words or
      the page has none, the division fails and the score stays as it was. */
  function NodeScore(a: Annot, page: nat): (s: Option<real>)
    ensures !(a.state.Counted? && a.state.rec.setTextCnt > 0 && page > 0) ==> s == a.score
    ensures a.state.Counted? && a.state.rec.setTextCnt > 0 && page > 0 ==> s.Some?
  {
    match a.state
    case Counted(r) =>
      if r.setTextCnt == 0 || page == 0 then a.score
      else Some(WeightRatio * (r.setTextCnt as real - r.setLinkCnt as real) / r.setTextCnt as real
                + WeightText * r.setTextCnt as real / page as real)
    case _ => a.score
  }

  /** `page_text or elements.textCnt`: a page count of zero stands for the
      missing argument, and both are replaced by the node's own words. */
  function PageFor(a: Annot, page: nat): (p: nat)
    ensures page != 0 ==> p == page
    ensures p == 0 ==> page == 0 && TextCnt(a) == 0
  {
    if page != 0 then page else TextCnt(a)
  }

  /** `set_scores` can run: wherever the page count is missing it reads the
      node's `textCnt`, which a node the counting pass never visited does
      not have. */
  ghost predicate Scorable(a: Annot, page: nat)
    decreases a
  {
    && (page != 0 || a.state != Unannotated)
    && forall k :: 0 <= k < |a.kids| ==> Scorable(a.kids[k], PageFor(a, page))
  }

  /** `set_scores(a, page)`: the children first, each against the page
      count this node settled on, then the node itself. */
  function ScoreAll(a: Annot, page: nat): (r: Annot)
    requires Scorable(a, page)
    ensures r.state == a.state && |r.kids| == |a.kids|
    decreases a, 1
  {
    var p := PageFor(a, page);
    Annot(a.state, NodeScore(a, p), ScoredKids(a, p))
  }

  /** The children of `a`, each scored against `p`. */
  function ScoredKids(a: Annot, p: nat): (r: seq<Annot>)
    requires forall k :: 0 <= k < |a.kids| ==> Scorable(a.kids[k], p)
    ensures |r| == |a.kids|
    decreases a, 0
  {
    seq(|a.kids|, i requires 0 <= i < |a.kids| => ScoreAll(a.kids[i], p))
  }

  lemma ScoredKid(a: Annot, p: nat, i: nat)
    requires forall k :: 0 <= k < |a.kids| ==> Scorable(a.kids[k], p)
    requires i < |a.kids|
    ensures ScoredKids(a, p)[i] == ScoreAll(a.kids[i], p)
  {
  }

  /** `set_scores`, as the Python code runs it: it settles on the page count,
      scores every child's subtree in order against it, then scores the
      node. */
  method SetScores(a: Annot, page: nat) returns (r: Annot)
    requires Scorable(a, page)
    ensures r == ScoreAll(a, page)
    decreases a, 1
  {
    var p := if page != 0 then page else TextCnt(a);
    var kids: seq<Annot> := [];
    var i := 0;
    while i < |a.kids|
      invariant 0 <= i <= |a.kids| && |kids| == i
      invariant ScoredSoFar(a, p, kids)
    {
      var c := SetScores(a.kids[i], p);
      ScoredSnoc(a, p, kids, c);
      kids := kids + [c];
      i := i + 1;
    }
    AllScored(a, p, kids);
    r := Annot(a.state, NodeScore(a, p), kids);
  }

  /** The first children of `a`, scored against `p`, as the loop has
      collected them so far. */
  ghost predicate ScoredSoFar(a: Annot, p: nat, kids: seq<Annot>) {
    && |kids| <= |a.kids|
    && forall k :: 0 <= k < |kids| ==> Scorable(a.kids[k], p) && kids[k] == ScoreAll(a.kids[k], p)
  }

  lemma ScoredSnoc(a: Annot, p: nat, kids: seq<Annot>, c: Annot)
    requires ScoredSoFar(a, p, kids) && |kids| < |a.kids|
    requires Scorable(a.kids[|kids|], p) && c == ScoreAll(a.kids[|kids|], p)
    ensures ScoredSoFar(a, p, kids + [c])
  {
  }

  lemma AllScored(a: Annot, p: nat, kids: seq<Annot>)
    requires ScoredSoFar(a, p, kids) && |kids| == |a.kids|
    ensures kids == ScoredKids(a, p)
  {
  }

  /** Two annotation trees that differ at most in their scores. */
  ghost predicate SameButScores(a: Annot, b: Annot)
    decreases a
  {
    && a.state == b.state && |a.kids| == |b.kids|
    && forall k :: 0 <= k < |a.kids| ==> SameButScores(a.kids[k], b.kids[k])
  }

  /** `set_scores` changes nothing but scores. */
  lemma {:induction false} ScoreAllOnlyScores(a: Annot, page: nat)
    requires Scorable(a, page)
    ensures SameButScores(ScoreAll(a, page), a)
    decreases a
  {
    var p := PageFor(a, page);
    forall k | 0 <= k < |a.kids|
      ensures SameButScores(ScoreAll(a, page).kids[k], a.kids[k])
    {
      ScoredKid(a, p, k);
      ScoreAllOnlyScores(a.kids[k], p);
    }
  }

  /** A tree `create_subsets` produced can be scored from its root without
      the page count: no node `set_scores` reaches lacks `textCnt` when it
      needs it. */
  lemma {:induction false} WellCountedScorable(a: Annot, page: nat)
    requires WellCounted(a) && (page != 0 || a.state != Unannotated)
    ensures Scorable(a, page)
    decreases a
  {
    var p := PageFor(a, page);
    forall k | 0 <= k < |a.kids|
      ensures Scorable(a.kids[k], p)
    {
      KidWellCounted(a, k);
      WellCountedScorable(a.kids[k], p);
    }
  }

  /** What `WellCounted` says of each child: it is well counted, has no
      more words than its parent and, below a counted node, has been
      visited by the counting pass. */
  lemma KidWellCounted(a: Annot, k: nat)
    requires WellCounted(a) && k < |a.kids|
    ensures WellCounted(a.kids[k])
    ensures a.state.Counted? ==> a.kids[k].state != Unannotated
    ensures TextCnt(a.kids[k]) <= TextCnt(a)
  {
    if a.state.Anchored? || a.state.Unannotated? {
      UntouchedWellCounted(a.kids[k]);
    }
  }

  lemma {:induction false} UntouchedWellCounted(a: Annot)
    requires Untouched(a)
    ensures WellCounted(a) && TextCnt(a) == 0
  {
  }

  /** What the scores of a scored tree look like: a node has a score
      exactly when it has `S` and its set counts at least one word, and
      every score lies in (0, 1]. */
  ghost predicate ScoredAsDesigned(a: Annot)
    decreases a
  {
    && (a.score.Some? <==> a.state.Counted? && a.state.rec.setTextCnt > 0)
    && (a.score.Some? ==> 0.0 < a.score.value <= 1.0)
    && forall k :: 0 <= k < |a.kids| ==> ScoredAsDesigned(a.kids[k])
  }

  /** Scoring a tree `create_subsets` produced, against any page count at
      least as large as its own word count (or against none at all), gives
      scores exactly to the nodes with words in `S`, all within (0, 1]. */
  lemma {:induction false} ScoreAllAsDesigned(a: Annot, page: nat)
    requires WellCounted(a)
    requires if page == 0 then a.state != Unannotated else TextCnt(a) <= page
    ensures Scorable(a, page) && ScoredAsDesigned(ScoreAll(a, page))
    decreases a
  {
    WellCountedScorable(a, page);
    var p := PageFor(a, page);
    var r := ScoreAll(a, page);
    forall k | 0 <= k < |a.kids|
      ensures ScoredAsDesigned(r.kids[k])
    {
      KidWellCounted(a, k);
      ScoredKid(a, p, k);
      ScoreAllAsDesigned(a.kids[k], p);
    }
    NodeScoreAsDesigned(a, p);
  }

  /** The score of one node of a tree `create_subsets` produced, against a
      page count at least its own word count. */
  lemma NodeScoreAsDesigned(a: Annot, p: nat)
    requires WellCounted(a) && TextCnt(a) <= p
    ensures var s := NodeScore(a, p);
      && (s.Some? <==> a.state.Counted? && a.state.rec.setTextCnt > 0)
      && (s.Some? ==> 0.0 < s.value <= 1.0)
  {
    if a.state.Counted? && a.state.rec.setTextCnt > 0 {
      var r := a.state.rec;
      ScoreInUnitRange(r.setTextCnt, r.setLinkCnt, p);
    }
  }

  /** The formula stays within (0, 1] when the set's links are among its
      words and the set's words are among the page's. */
  lemma ScoreInUnitRange(st: nat, sl: nat, p: nat)
    requires 0 < st && sl <= st && st <= p
    ensures var x := WeightRatio * (st as real - sl as real) / st as real + WeightText * st as real / p as real;
      0.0 < x <= 1.0
  {
    var share := (st as real - sl as real) / st as real;
    var reach := st as real / p as real;
    UnitFraction(st as real - sl as real, st as real);
    UnitFraction(st as real, p as real);
    ScaledFraction(WeightRatio, st as real - sl as real, st as real);
    ScaledFraction(WeightText, st as real, p as real);
    PositiveFraction(st as real, p as real);
  }

  /** A fraction whose numerator lies between zero and its denominator. */
  lemma UnitFraction(x: real, y: real)
    requires 0.0 <= x <= y && y > 0.0
    ensures 0.0 <= x / y <= 1.0
  {
    var q := x / y;
    assert q * y == x;
    if q > 1.0 {
      MulPositive(q - 1.0, y);
    }
    if q < 0.0 {
      MulPositive(-q, y);
    }
  }

  lemma PositiveFraction(x: real, y: real)
    requires x > 0.0 && y > 0.0
    ensures x / y > 0.0
  {
    var q := x / y;
    assert q * y == x;
    if q <= 0.0 {
      MulPositive(-q, y);
    }
  }

  /** Scaling the numerator scales the fraction. */
  lemma ScaledFraction(c: real, x: real, y: real)
    requires y > 0.0
    ensures c * x / y == c * (x / y)
  {
    var q := x / y;
    assert q * y == x;
    assert c * x == (c * q) * y;
  }

  /** The page count `set_scores` hands down from the root: the root's own
      word count, when it has any. Every node is then scored against the
      words of the whole page. */
  lemma RootPageCount(a: Annot)
    requires Scorable(a, 0) && TextCnt(a) > 0
    ensures Scorable(a, TextCnt(a)) && ScoreAll(a, 0) == ScoreAll(a, TextCnt(a))
  {
  }

  /** Scored against `p` throughout: every node of `b` carries the score
      `score_node` gives the same node of `a` against the page count `p`. */
  ghost predicate ScoredAgainst(a: Annot, b: Annot, p: nat)
    decreases a
  {
    && b.score == NodeScore(a, p) && |b.kids| == |a.kids|
    && forall k :: 0 <= k < |a.kids| ==> ScoredAgainst(a.kids[k], b.kids[k], p)
  }

  /** Once a page count is known it is passed down unchanged. */
  lemma {:induction false} PageThreaded(a: Annot, p: nat)
    requires p > 0 && Scorable(a, p)
    ensures ScoredAgainst(a, ScoreAll(a, p), p)
    decreases a
  {
    forall k | 0 <= k < |a.kids|
      ensures ScoredAgainst(a.kids[k], ScoreAll(a, p).kids[k], p)
    {
      ScoredKid(a, p, k);
      PageThreaded(a.kids[k], p);
    }
  }

  /** After `create_subsets` and `set_scores` on the same tree: every score
      is as designed, and when the page has words every node is scored
      against the page's word count. */
  lemma AnnotateThenScore(n: Node)
    ensures Scorable(Annotate(n), 0)
    ensures ScoredAsDesigned(ScoreAll(Annotate(n), 0))
    ensures TextCnt(Annotate(n)) > 0 ==>
      ScoredAgainst(Annotate(n), ScoreAll(Annotate(n), 0), TextCnt(Annotate(n)))
  {
    var a := Annotate(n);
    AnnotateWellCounted(n);
    ScoreAllAsDesigned(a, 0);
    if TextCnt(a) > 0 {
      RootPageCount(a);
      PageThreaded(a, TextCnt(a));
    }
  }
}
