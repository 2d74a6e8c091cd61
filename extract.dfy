/** The end of `summary`: the candidate with the highest score is chosen,
    and every child of it outside its set `S` is dropped (`drop_tree`,
    which keeps the dropped child's tail text).

    The candidates are the nodes of the preprocessed tree, visited in
    pre-order; the first one with the highest key wins. A node without a
    score has key 0. */
module Extract {
  import opened Tree
  import opened Preprocess
  import opened Subsets
  import opened Scoring

  /** The key `max` compares: the score, or 0 for a node without one. */
  function Key(a: Annot): (k: real)
    ensures k == 0.0 || a.score == Some(k)
  {
    if a.score.Some? then a.score.value else 0.0
  }

  /** A path of child positions that exists in the annotation tree. */
  predicate ValidAnnPath(a: Annot, p: seq<nat>) {
    p == [] || (p[0] < |a.kids| && ValidAnnPath(a.kids[p[0]], p[1..]))
  }

  /** The annotation at the end of path `p`. */
  function AnnAt(a: Annot, p: seq<nat>): (r: Annot)
    requires ValidAnnPath(a, p)
  {
    if p == [] then a else AnnAt(a.kids[p[0]], p[1..])
  }

  /** A candidate: where it is, and its key. */
  datatype Choice = Choice(path: seq<nat>, key: real)

  /** `max` over the nodes of the tree `a`, in pre-order: the node itself,
      then its children's subtrees one after the other; a later candidate
      replaces the current one only with a strictly higher key. */
  function Best(a: Annot): (c: Choice)
    ensures Key(a) <= c.key
    decreases a, 1
  {
    BestFrom(a, 0, Choice([], Key(a)))
  }

  /** The winner after the subtrees of children `i..` have been compared
      with the current candidate `cur`. */
  function BestFrom(a: Annot, i: nat, cur: Choice): (c: Choice)
    requires i <= |a.kids|
    ensures cur.key <= c.key
    decreases a, 0, |a.kids| - i
  {
    if i == |a.kids| then cur
    else
      var b := Best(a.kids[i]);
      BestFrom(a, i + 1, if b.key > cur.key then Choice([i] + b.path, b.key) else cur)
  }

  /** The winner is a node of the tree, and its key is that node's key. */
  lemma {:induction false} BestIsCandidate(a: Annot)
    ensures ValidAnnPath(a, Best(a).path) && Best(a).key == Key(AnnAt(a, Best(a).path))
    decreases a, 1
  {
    BestFromIsCandidate(a, 0, Choice([], Key(a)));
  }

  lemma {:induction false} BestFromIsCandidate(a: Annot, i: nat, cur: Choice)
    requires i <= |a.kids|
    requires ValidAnnPath(a, cur.path) && cur.key == Key(AnnAt(a, cur.path))
    ensures var c := BestFrom(a, i, cur);
      ValidAnnPath(a, c.path) && c.key == Key(AnnAt(a, c.path))
    decreases a, 0, |a.kids| - i
  {
    if i < |a.kids| {
      var b := Best(a.kids[i]);
      BestIsCandidate(a.kids[i]);
      var p := [i] + b.path;
      assert p[0] == i && p[1..] == b.path;
      BestFromIsCandidate(a, i + 1, if b.key > cur.key then Choice(p, b.key) else cur);
    }
  }

  /** No node of the tree has a higher key than the winner. */
  lemma {:induction false} BestIsMaximal(a: Annot, q: seq<nat>)
    requires ValidAnnPath(a, q)
    ensures Key(AnnAt(a, q)) <= Best(a).key
    decreases a
  {
    if q == [] {
      BestFromGrows(a, 0, Choice([], Key(a)));
    } else {
      var i := q[0];
      BestIsMaximal(a.kids[i], q[1..]);
      BestFromCovers(a, 0, Choice([], Key(a)), i);
    }
  }

  /** Going on with the comparison never lowers the current key. */
  lemma {:induction false} BestFromGrows(a: Annot, i: nat, cur: Choice)
    requires i <= |a.kids|
    ensures cur.key <= BestFrom(a, i, cur).key
    decreases |a.kids| - i
  {
    if i < |a.kids| {
      var b := Best(a.kids[i]);
      BestFromGrows(a, i + 1, if b.key > cur.key then Choice([i] + b.path, b.key) else cur);
    }
  }

  /** The winner beats the best of every child subtree still to come. */
  lemma {:induction false} BestFromCovers(a: Annot, i: nat, cur: Choice, j: nat)
    requires i <= j < |a.kids|
    ensures Best(a.kids[j]).key <= BestFrom(a, i, cur).key
    decreases |a.kids| - i
  {
    var b := Best(a.kids[i]);
    var next := if b.key > cur.key then Choice([i] + b.path, b.key) else cur;
    if i == j {
      BestFromGrows(a, i + 1, next);
    } else {
      BestFromCovers(a, i + 1, next, j);
    }
  }

  /** For each child of the chosen node: whether it stays. A child stays
      when it is in `S`; a node without `S` loses every child (the lookup
      of `S` fails and the child is dropped all the same). */
  function KeepS(ann: Annot, m: nat): (keep: seq<bool>)
    ensures |keep| == m
  {
    seq(m, i requires 0 <= i < m => ann.state.Counted? && i in ann.state.rec.subset)
  }

  /** The chosen node after its children outside `S` are dropped. */
  function Pruned(node: Node, ann: Annot): (r: Node)
    ensures r.kind == node.kind && r.tail == node.tail
  {
    var d := Detach(node.text, node.children, KeepS(ann, |node.children|));
    Node(node.kind, d.text, node.tail, d.kids)
  }

  /** The pruning loop of `summary`, as the Python code runs it: each child
      not in `S` is dropped, its tail joining the previous kept child's
      tail or the node's own text. */
  method Prune(node: Node, ann: Annot) returns (r: Node)
    ensures r == Pruned(node, ann)
  {
    ghost var keep := KeepS(ann, |node.children|);
    var text, kept := node.text, [];
    var i := 0;
    while i < |node.children|
      invariant 0 <= i <= |node.children|
      invariant Spliced(text, kept) == DetachUpTo(node.text, node.children, keep, i)
    {
      var e := node.children[i];
      var drop := match ann.state
        case Counted(rec) => i !in rec.subset
        case _ => true;
      if !drop {
        kept := kept + [e];
      } else if kept == [] {
        text := text + e.tail;
      } else {
        var k := |kept| - 1;
        kept := kept[k := WithTail(kept[k], e.tail)];
      }
      i := i + 1;
    }
    r := Node(node.kind, text, node.tail, kept);
  }

  /** After pruning, the children left are exactly the members of `S`, in
      document order, each followed by the tails of the dropped children
      up to the next member; the tails of the dropped children before the
      first member follow the node's own text. */
  lemma PrunedKeepsS(node: Node, ann: Annot)
    ensures var m := |node.children|;
      var ix := KeptUpTo(KeepS(ann, m), m);
      && (forall i :: i in ix <==> 0 <= i < m && ann.state.Counted? && i in ann.state.rec.subset)
      && SplicedAs(Spliced(Pruned(node, ann).text, Pruned(node, ann).children), node.text, node.children, ix, m)
  {
    var m := |node.children|;
    DetachSpec(node.text, node.children, KeepS(ann, m), m);
  }

  /** A node without `S` (an anchor, or a node the counting pass never
      visited) loses all its children, and all their tails follow its own
      text. */
  lemma PrunedWithoutS(node: Node, ann: Annot)
    requires !ann.state.Counted?
    ensures Pruned(node, ann).children == []
    ensures Pruned(node, ann).text == node.text + TailsIn(node.children, 0, |node.children|)
  {
    var m := |node.children|;
    PrunedKeepsS(node, ann);
    assert KeptUpTo(KeepS(ann, m), m) == [];
  }

  /** The annotation tree has the shape of the markup tree along every
      path. */
  lemma {:induction false} ShapedPath(a: Annot, n: Node, p: seq<nat>)
    requires Shaped(a, n) && ValidAnnPath(a, p)
    ensures ValidPath(n, p) && Shaped(AnnAt(a, p), NodeAt(n, p))
    decreases p
  {
    if p != [] {
      ShapedPath(a.kids[p[0]], n.children[p[0]], p[1..]);
    }
  }

  /** Two trees that differ only in their scores have the same paths and
      the same attributes along them. */
  lemma {:induction false} SameButScoresPath(a: Annot, b: Annot, p: seq<nat>)
    requires SameButScores(a, b) && ValidAnnPath(a, p)
    ensures ValidAnnPath(b, p) && SameButScores(AnnAt(a, p), AnnAt(b, p))
    decreases p
  {
    if p != [] {
      SameButScoresPath(a.kids[p[0]], b.kids[p[0]], p[1..]);
    }
  }

  lemma {:induction false} SameButScoresShaped(a: Annot, b: Annot, n: Node)
    requires SameButScores(a, b) && Shaped(b, n)
    ensures Shaped(a, n)
    decreases n
  {
    forall i | 0 <= i < |n.children|
      ensures Shaped(a.kids[i], n.children[i])
    {
      SameButScoresShaped(a.kids[i], b.kids[i], n.children[i]);
    }
  }

  /** Every node below a node `create_subsets` went through is well
      counted too. */
  lemma {:induction false} WellCountedPath(a: Annot, p: seq<nat>)
    requires WellCounted(a) && ValidAnnPath(a, p)
    ensures WellCounted(AnnAt(a, p))
    decreases p
  {
    if p != [] {
      KidWellCounted(a, p[0]);
      WellCountedPath(a.kids[p[0]], p[1..]);
    }
  }

  /** Every node below a tree that is scored as designed is too. */
  lemma {:induction false} ScoredAsDesignedPath(a: Annot, p: seq<nat>)
    requires ScoredAsDesigned(a) && ValidAnnPath(a, p)
    ensures ScoredAsDesigned(AnnAt(a, p))
    decreases p
  {
    if p != [] {
      ScoredAsDesignedPath(a.kids[p[0]], p[1..]);
    }
  }

  /** Every node below a clean node is clean. */
  lemma {:induction false} CleanPath(n: Node, p: seq<nat>)
    requires Clean(n) && ValidPath(n, p)
    ensures Clean(NodeAt(n, p))
    decreases p
  {
    if p != [] {
      CleanPath(n.children[p[0]], p[1..]);
    }
  }

  /** The selection and pruning at the end of `summary`, on the
      preprocessed tree `s` and its scored annotations `a`. */
  function Choose(s: Node, a: Annot): (r: Node)
    requires Shaped(a, s)
    ensures ValidPath(s, Best(a).path)
    ensures r.kind == NodeAt(s, Best(a).path).kind && r.tail == NodeAt(s, Best(a).path).tail
  {
    var c := Best(a);
    BestIsCandidate(a);
    ShapedPath(a, s, c.path);
    Pruned(NodeAt(s, c.path), AnnAt(a, c.path))
  }

  /** The scored annotation tree `summary` chooses from. */
  function Scored(s: Node): (a: Annot)
    ensures Shaped(a, s) && SameButScores(a, Annotate(s)) && ScoredAsDesigned(a)
  {
    AnnotateThenScore(s);
    ScoreAllOnlyScores(Annotate(s), 0);
    AnnotateShaped(s);
    SameButScoresShaped(ScoreAll(Annotate(s), 0), Annotate(s), s);
    ScoreAll(Annotate(s), 0)
  }

  /** `summary` on the body of a parsed page: preprocess, count, score,
      choose the best node and prune it. */
  function Extract(body: Node): (r: Node)
    ensures var s := Strip(body); var p := Best(Scored(s)).path;
      ValidPath(s, p) && r.kind == NodeAt(s, p).kind && r.tail == NodeAt(s, p).tail
  {
    var s := Strip(body);
    Choose(s, Scored(s))
  }

  /** `summary`, step by step as the Python code runs it. */
  method Summary(body: Node) returns (r: Node)
    ensures r == Extract(body)
  {
    var s := Preprocess.Preprocess(body);
    var a := CreateSubsets(s);
    AnnotateThenScore(s);
    a := SetScores(a, 0);
    assert a == Scored(s);
    var best := Best(a);
    BestIsCandidate(a);
    ShapedPath(a, s, best.path);
    r := Prune(NodeAt(s, best.path), AnnAt(a, best.path));
  }

  /** In a tree scored as designed no key is negative. */
  lemma {:induction false} KeysNonNegative(a: Annot, q: seq<nat>)
    requires ScoredAsDesigned(a) && ValidAnnPath(a, q)
    ensures 0.0 <= Key(AnnAt(a, q))
  {
    ScoredAsDesignedPath(a, q);
  }

  /** The choice of `summary`: the chosen node has the highest key among
      the nodes of the preprocessed tree, and a key of at least 0, the key
      of the nodes preprocessing removed; when any node has a score, the
      chosen one has one too and has been through the counting branch of
      `create_subsets`. */
  lemma ExtractChoosesBest(body: Node)
    ensures var s := Strip(body); var a := Scored(s); var c := Best(a);
      && ValidAnnPath(a, c.path) && ValidPath(s, c.path)
      && c.key == Key(AnnAt(a, c.path))
      && (forall q :: ValidAnnPath(a, q) ==> Key(AnnAt(a, q)) <= c.key)
      && 0.0 <= c.key
      && ((exists q :: ValidAnnPath(a, q) && AnnAt(a, q).score.Some?) ==>
            AnnAt(a, c.path).score.Some? && AnnAt(a, c.path).state.Counted?)
  {
    var s := Strip(body);
    var a := Scored(s);
    var c := Best(a);
    BestIsCandidate(a);
    ShapedPath(a, s, c.path);
    forall q | ValidAnnPath(a, q)
      ensures Key(AnnAt(a, q)) <= c.key
    {
      BestIsMaximal(a, q);
    }
    KeysNonNegative(a, []);
    ScoredAsDesignedPath(a, c.path);
    if q :| ValidAnnPath(a, q) && AnnAt(a, q).score.Some? {
      ScoredAsDesignedPath(a, q);
    }
  }

  /** What pruning leaves of the chosen node: its children in `S`, which
      are exactly its children that passed the ratio test, and no child at
      all when it has no `S`. */
  lemma ExtractKeepsS(body: Node)
    ensures var s := Strip(body); var a := Scored(s); var c := Best(a);
      ValidAnnPath(a, c.path) && ValidPath(s, c.path) &&
      var node, ann := NodeAt(s, c.path), AnnAt(a, c.path);
      && Extract(body) == Pruned(node, ann)
      && |ann.kids| == |node.children|
      && (ann.state.Counted? ==>
            forall i :: i in ann.state.rec.subset <==>
              0 <= i < |ann.kids| && Qualifies(TextCnt(ann.kids[i]), LinkCnt(ann.kids[i])))
      && (!ann.state.Counted? ==> Extract(body).children == [])
  {
    var s := Strip(body);
    var a := Scored(s);
    var c := Best(a);
    BestIsCandidate(a);
    ShapedPath(a, s, c.path);
    var ann := AnnAt(a, c.path);
    SameButScoresPath(a, Annotate(s), c.path);
    var orig := AnnAt(Annotate(s), c.path);
    AnnotateWellCounted(s);
    WellCountedPath(Annotate(s), c.path);
    if ann.state.Counted? {
      SameKidsCounts(ann, orig);
    } else {
      PrunedWithoutS(NodeAt(s, c.path), ann);
    }
  }

  /** Trees that differ only in their scores have the same counts in
      their children, and so the same subsets. */
  lemma SameKidsCounts(a: Annot, b: Annot)
    requires SameButScores(a, b) && WellCounted(b) && b.state.Counted?
    ensures forall i :: i in a.state.rec.subset <==>
      0 <= i < |a.kids| && Qualifies(TextCnt(a.kids[i]), LinkCnt(a.kids[i]))
  {
    forall i | 0 <= i < |a.kids|
      ensures TextCnt(a.kids[i]) == TextCnt(b.kids[i]) && LinkCnt(a.kids[i]) == LinkCnt(b.kids[i])
    {
      assert SameButScores(a.kids[i], b.kids[i]);
    }
  }

  /** Nothing forbidden comes back: the extracted node holds no element
      with a forbidden tag and no comment, at any depth. */
  lemma ExtractIsClean(body: Node)
    ensures Clean(Extract(body))
  {
    var s := Strip(body);
    var a := Scored(s);
    var c := Best(a);
    BestIsCandidate(a);
    ShapedPath(a, s, c.path);
    StripIsClean(body);
    CleanPath(s, c.path);
    PrunedClean(NodeAt(s, c.path), AnnAt(a, c.path));
  }

  /** Pruning a clean node leaves it clean. */
  lemma PrunedClean(node: Node, ann: Annot)
    requires Clean(node)
    ensures Clean(Pruned(node, ann))
  {
    var m := |node.children|;
    var keep := KeepS(ann, m);
    var d := Detach(node.text, node.children, keep);
    var ix := KeptUpTo(keep, m);
    DetachSpec(node.text, node.children, keep, m);
    forall k | 0 <= k < |d.kids|
      ensures !Forbidden(d.kids[k]) && Clean(d.kids[k])
    {
      var j := ix[k];
      KeptChildClean(d.kids[k], node.children[j], TailsIn(node.children, j + 1, NextKept(ix, k, m)));
    }
  }
}
