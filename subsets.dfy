/** `create_subsets`: the post-order pass that gives every node its word
    counts and its set `S` of qualifying children.

    The counts the Python code of CoreEx stores as attributes on each element are kept
    in an annotation tree `Annot` that runs parallel to the markup tree. A
    node is `Anchored` (an `<a>`: only `textCnt = linkCnt = 1`),
    `Counted` (every other node the pass reaches: the four counts and `S`)
    or `Unannotated` (the descendants of an anchor, which the pass never
    visits). Children in `S` are named by their position among the
    children. */
module Subsets {
  import opened Tree
  import opened Words

  /** The ratio of non-link words a child needs to join its parent's `S`. */
  const Threshold: real := 0.9

  datatype Option<T> = None | Some(value: T)

  datatype Record = Record(textCnt: nat, linkCnt: nat, setTextCnt: nat, setLinkCnt: nat, subset: set<nat>)

  datatype State = Unannotated | Anchored | Counted(rec: Record)

  /** The attributes of one node, its score (set later by the scoring
      pass), and the annotations of its children. */
  datatype Annot = Annot(state: State, score: Option<real>, kids: seq<Annot>)

  /** `textCnt` as the parent reads it after the child's pass. */
  function TextCnt(a: Annot): (r: nat) {
    match a.state
    case Unannotated => 0
    case Anchored => 1
    case Counted(r) => r.textCnt
  }

  /** `linkCnt` as the parent reads it after the child's pass. */
  function LinkCnt(a: Annot): (r: nat) {
    match a.state
    case Unannotated => 0
    case Anchored => 1
    case Counted(r) => r.linkCnt
  }

  /** The test a child passes to join `S`, as the Python code writes it: it
      has words, and the share of them outside links is above the
      threshold. */
  predicate RatioAbove(t: nat, l: nat) {
    t > 0 && (t as real - l as real) / t as real > Threshold
  }

  /** The same test in integer arithmetic, `(t - l) * 10 > 9 * t`; the
      model states everything else in these terms. */
  predicate Qualifies(t: nat, l: nat) {
    t > 0 && (t - l) * 10 > 9 * t
  }

  /** The two forms of the test agree on every pair of counts. */
  lemma RatioIsQualifies(t: nat, l: nat)
    ensures RatioAbove(t, l) <==> Qualifies(t, l)
  {
    if t > 0 {
      var x, y := t as real - l as real, t as real;
      var q := x / y;
      assert q * y == x;
      if q > Threshold {
        MulPositive(q - Threshold, y);
        assert x * 10.0 > 9.0 * y;
      } else {
        MulNonPositive(q - Threshold, y);
        assert x * 10.0 <= 9.0 * y;
      }
    }
  }

  lemma MulPositive(a: real, b: real)
    requires a > 0.0 && b > 0.0
    ensures a * b > 0.0
  {
  }

  lemma MulNonPositive(a: real, b: real)
    requires a <= 0.0 && b > 0.0
    ensures a * b <= 0.0
  {
  }

  /** A qualifying child has fewer than a tenth of its words in links. */
  lemma QualifiesFewLinks(t: nat, l: nat)
    requires Qualifies(t, l)
    ensures 10 * l < t
  {
  }

  /** The words of each child's tail. */
  function TailCounts(n: Node): (r: seq<nat>)
    ensures |r| == |n.children|
  {
    seq(|n.children|, i requires 0 <= i < |n.children| => CountWords(n.children[i].tail))
  }

  /** The attributes after one more turn of the loop over the children:
      child `i`, with `t` words of which `l` in links, followed by a tail
      of `tw` words. */
  function Step(acc: Record, i: nat, t: nat, l: nat, tw: nat): (r: Record)
    ensures i in r.subset <==> i in acc.subset || Qualifies(t, l)
  {
    if Qualifies(t, l) then
      Record(acc.textCnt + t + tw, acc.linkCnt + l, acc.setTextCnt + tw + t, acc.setLinkCnt + l, acc.subset + {i})
    else
      Record(acc.textCnt + t + tw, acc.linkCnt + l, acc.setTextCnt + tw, acc.setLinkCnt, acc.subset)
  }

  /** The attributes of a non-anchor node after the first `m` turns of the
      loop over its children, given the words of its own text (`own`), the
      words of each child's tail (`tails`) and the children's annotations. */
  function Accumulate(own: nat, tails: seq<nat>, kids: seq<Annot>, m: nat): (r: Record)
    requires m <= |tails| && m <= |kids|
    ensures r.setLinkCnt <= r.setTextCnt <= r.textCnt
    decreases m
  {
    if m == 0 then Record(own, 0, own, 0, {})
    else Step(Accumulate(own, tails, kids, m - 1), m - 1, TextCnt(kids[m - 1]), LinkCnt(kids[m - 1]), tails[m - 1])
  }

  /** `S` holds exactly the qualifying children among the first `m`. */
  lemma {:induction false} AccumulateSubset(own: nat, tails: seq<nat>, kids: seq<Annot>, m: nat)
    requires |tails| == |kids| && m <= |kids|
    ensures var r := Accumulate(own, tails, kids, m);
      forall i :: i in r.subset <==> 0 <= i < m && Qualifies(TextCnt(kids[i]), LinkCnt(kids[i]))
    decreases m
  {
    if m > 0 {
      AccumulateSubset(own, tails, kids, m - 1);
    }
  }

  /** No child seen so far has more words than the node. */
  lemma {:induction false} AccumulateCoversKids(own: nat, tails: seq<nat>, kids: seq<Annot>, m: nat)
    requires |tails| == |kids| && m <= |kids|
    ensures var r := Accumulate(own, tails, kids, m);
      forall i :: 0 <= i < m ==> TextCnt(kids[i]) <= r.textCnt
    decreases m
  {
    if m > 0 {
      AccumulateCoversKids(own, tails, kids, m - 1);
    }
  }

  /** Links stay within words when they do so for every child. */
  lemma {:induction false} AccumulateLinks(own: nat, tails: seq<nat>, kids: seq<Annot>, m: nat)
    requires |tails| == |kids| && m <= |kids|
    requires forall i :: 0 <= i < m ==> LinkCnt(kids[i]) <= TextCnt(kids[i])
    ensures Accumulate(own, tails, kids, m).linkCnt <= Accumulate(own, tails, kids, m).textCnt
    decreases m
  {
    if m > 0 {
      AccumulateLinks(own, tails, kids, m - 1);
    }
  }

  /** The annotation a node the pass never visits keeps: none, at any depth. */
  function Blank(n: Node): (a: Annot)
    ensures a.state == Unannotated && |a.kids| == |n.children|
    decreases n
  {
    Annot(Unannotated, None, seq(|n.children|, i requires 0 <= i < |n.children| => Blank(n.children[i])))
  }

  /** `create_subsets(n)`: the annotation of `n` and its whole subtree. */
  function Annotate(n: Node): (a: Annot)
    ensures a.state != Unannotated && a.score == None && |a.kids| == |n.children|
    decreases n, 2
  {
    if IsAnchor(n) then Annot(Anchored, None, Blank(n).kids) else CountedAnnot(n)
  }

  /** The annotation of a node other than an anchor: its counts over all
      its children, each annotated in turn. */
  function CountedAnnot(n: Node): (a: Annot)
    ensures |a.kids| == |n.children|
    decreases n, 1
  {
    var kids := AnnotatedKids(n);
    Annot(Counted(Accumulate(CountWords(n.text), TailCounts(n), kids, |kids|)), None, kids)
  }

  /** The annotations of the children of `n`. */
  function AnnotatedKids(n: Node): (r: seq<Annot>)
    ensures |r| == |n.children|
    decreases n, 0
  {
    seq(|n.children|, i requires 0 <= i < |n.children| => Annotate(n.children[i]))
  }

  lemma AnnotatedKid(n: Node, i: nat)
    requires i < |n.children|
    ensures AnnotatedKids(n)[i] == Annotate(n.children[i])
  {
  }

  /** `create_subsets`, as the Python code runs it: an anchor gets its two
      counts and nothing else; any other node starts from the words of its
      own text and goes through its children in order, each annotated first,
      adding up the counts and collecting the qualifying ones. */
  method CreateSubsets(n: Node) returns (a: Annot)
    ensures a == Annotate(n)
    decreases n, 2
  {
    if IsAnchor(n) {
      a := Annot(Anchored, None, Blank(n).kids);
    } else {
      a := CountChildren(n);
    }
  }

  /** The branch of `create_subsets` for a node other than an anchor. */
  method CountChildren(n: Node) returns (a: Annot)
    ensures a == CountedAnnot(n)
    decreases n, 1
  {
    var textCnt := CountWords(n.text);
    var rec := Record(textCnt, 0, textCnt, 0, {});
    var kids: seq<Annot> := [];
    ghost var tails: seq<nat> := [];
    var i := 0;
    while i < |n.children|
      invariant 0 <= i <= |n.children| && |kids| == i && |tails| == i
      invariant ChildrenSoFar(n, kids, tails)
      invariant rec == Accumulate(textCnt, tails, kids, i)
    {
      var child := n.children[i];
      var c := CreateSubsets(child);
      var tailTextCnt := CountWords(child.tail);
      AccumulateSnoc(textCnt, tails, kids, tailTextCnt, c);
      ChildrenSnoc(n, kids, tails, c, tailTextCnt);
      rec := AddChild(rec, i, c, tailTextCnt);
      kids, tails := kids + [c], tails + [tailTextCnt];
      i := i + 1;
    }
    ChildrenAnnotated(n, kids, tails);
    a := Annot(Counted(rec), None, kids);
  }

  /** Appending one more child and its tail to the lists extends the
      running attributes by one turn of the loop. */
  lemma AccumulateSnoc(own: nat, tails: seq<nat>, kids: seq<Annot>, tw: nat, c: Annot)
    requires |tails| == |kids|
    ensures Accumulate(own, tails + [tw], kids + [c], |kids| + 1) ==
      Step(Accumulate(own, tails, kids, |kids|), |kids|, TextCnt(c), LinkCnt(c), tw)
  {
    AccumulatePrefix(own, tails, kids, [tw], [c], |kids|);
  }

  /** The attributes after `m` turns depend on the first `m` children only. */
  lemma {:induction false} AccumulatePrefix(own: nat, tails: seq<nat>, kids: seq<Annot>, tails': seq<nat>, kids': seq<Annot>, m: nat)
    requires m <= |tails| && m <= |kids|
    ensures Accumulate(own, tails + tails', kids + kids', m) == Accumulate(own, tails, kids, m)
    decreases m
  {
    if m > 0 {
      AccumulatePrefix(own, tails, kids, tails', kids', m - 1);
      assert (kids + kids')[m - 1] == kids[m - 1];
      assert (tails + tails')[m - 1] == tails[m - 1];
    }
  }

  /** The first children's annotations and tail counts, as the loop has
      collected them so far. */
  ghost predicate ChildrenSoFar(n: Node, kids: seq<Annot>, tails: seq<nat>) {
    && |kids| == |tails| <= |n.children|
    && (forall k :: 0 <= k < |kids| ==> kids[k] == Annotate(n.children[k]))
    && (forall k :: 0 <= k < |tails| ==> tails[k] == CountWords(n.children[k].tail))
  }

  lemma ChildrenSnoc(n: Node, kids: seq<Annot>, tails: seq<nat>, c: Annot, tw: nat)
    requires ChildrenSoFar(n, kids, tails) && |kids| < |n.children|
    requires c == Annotate(n.children[|kids|]) && tw == CountWords(n.children[|kids|].tail)
    ensures ChildrenSoFar(n, kids + [c], tails + [tw])
  {
  }

  /** Lists built child by child, as the loop does, are the children's
      annotations and tail counts. */
  lemma ChildrenAnnotated(n: Node, kids: seq<Annot>, tails: seq<nat>)
    requires ChildrenSoFar(n, kids, tails) && |kids| == |n.children|
    ensures kids == AnnotatedKids(n) && tails == TailCounts(n)
  {
  }

  /** One turn of the loop: the child's words and links are added, then
      the words of its tail; a child with words whose share of non-link
      words is above the threshold joins `S` and adds its counts to the set
      counts. */
  method AddChild(acc: Record, i: nat, c: Annot, tailTextCnt: nat) returns (r: Record)
    ensures r == Step(acc, i, TextCnt(c), LinkCnt(c), tailTextCnt)
  {
    r := acc;
    var t, l := TextCnt(c), LinkCnt(c);
    r := r.(textCnt := r.textCnt + t, linkCnt := r.linkCnt + l);
    r := r.(textCnt := r.textCnt + tailTextCnt, setTextCnt := r.setTextCnt + tailTextCnt);
    if t > 0 {
      var childRatio := (t as real - l as real) / t as real;
      RatioIsQualifies(t, l);
      if childRatio > Threshold {
        r := r.(subset := r.subset + {i}, setTextCnt := r.setTextCnt + t, setLinkCnt := r.setLinkCnt + l);
      }
    }
  }

  /** No annotation anywhere in the subtree. */
  predicate Untouched(a: Annot)
    decreases a
  {
    a.state == Unannotated && a.score == None &&
    forall k :: 0 <= k < |a.kids| ==> Untouched(a.kids[k])
  }

  /** What `create_subsets` promises of every node it has been through:
      links never outnumber words, the counts restricted to `S` are within
      the node's totals, no child has more words than its parent, `S`
      holds exactly the qualifying children, every child of a counted node
      has been visited, below an anchor nothing is annotated, and no node
      has a score yet. */
  ghost predicate WellCounted(a: Annot)
    decreases a
  {
    match a.state
    case Unannotated => Untouched(a)
    case Anchored => a.score == None && forall k :: 0 <= k < |a.kids| ==> Untouched(a.kids[k])
    case Counted(r) =>
      && a.score == None
      && r.linkCnt <= r.textCnt
      && r.setLinkCnt <= r.setTextCnt <= r.textCnt
      && (forall i :: i in r.subset <==> 0 <= i < |a.kids| && Qualifies(TextCnt(a.kids[i]), LinkCnt(a.kids[i])))
      && (forall k :: 0 <= k < |a.kids| ==>
            && a.kids[k].state != Unannotated
            && TextCnt(a.kids[k]) <= r.textCnt
            && WellCounted(a.kids[k]))
  }

  /** Links never outnumber words, for any node the pass has been through. */
  lemma WellCountedLinks(a: Annot)
    requires WellCounted(a)
    ensures LinkCnt(a) <= TextCnt(a)
  {
  }

  lemma {:induction false} BlankUntouched(n: Node)
    ensures Untouched(Blank(n))
    decreases n
  {
    var b := Blank(n);
    forall k | 0 <= k < |b.kids|
      ensures Untouched(b.kids[k])
    {
      BlankUntouched(n.children[k]);
    }
  }

  /** Every node of the tree `create_subsets` leaves behind satisfies
      `WellCounted`. */
  lemma {:induction false} AnnotateWellCounted(n: Node)
    ensures WellCounted(Annotate(n))
    decreases n
  {
    var a := Annotate(n);
    if IsAnchor(n) {
      BlankUntouched(n);
    } else {
      var kids := AnnotatedKids(n);
      forall k | 0 <= k < |kids|
        ensures WellCounted(kids[k]) && LinkCnt(kids[k]) <= TextCnt(kids[k])
      {
        AnnotatedKid(n, k);
        AnnotateWellCounted(n.children[k]);
        WellCountedLinks(kids[k]);
      }
      var own, tails := CountWords(n.text), TailCounts(n);
      AccumulateSubset(own, tails, kids, |kids|);
      AccumulateCoversKids(own, tails, kids, |kids|);
      AccumulateLinks(own, tails, kids, |kids|);
    }
  }

  /** An anchor has one word and one link whatever its text, and neither
      it nor anything below it gets `S` or the set counts. */
  lemma AnchorCounts(n: Node)
    requires IsAnchor(n)
    ensures var a := Annotate(n);
      a.state == Anchored && TextCnt(a) == 1 && LinkCnt(a) == 1 &&
      forall k :: 0 <= k < |a.kids| ==> Untouched(a.kids[k])
  {
    BlankUntouched(n);
  }

  /** The sum of a sequence of counts. */
  function Sum(s: seq<nat>): (r: nat) {
    if s == [] then 0 else s[0] + Sum(s[1..])
  }

  lemma {:induction false} SumSnoc(s: seq<nat>, x: nat)
    ensures Sum(s + [x]) == Sum(s) + x
  {
    if s == [] {
      assert [x][1..] == [];
    } else {
      assert (s + [x])[1..] == s[1..] + [x];
      SumSnoc(s[1..], x);
    }
  }

  /** Per child: its words plus the words of its tail. */
  function TextShares(tails: seq<nat>, kids: seq<Annot>, m: nat): (r: seq<nat>)
    requires |tails| == |kids| && m <= |kids|
  {
    seq(m, i requires 0 <= i < m => TextCnt(kids[i]) + tails[i])
  }

  /** Per child: its links. */
  function LinkShares(kids: seq<Annot>, m: nat): (r: seq<nat>)
    requires m <= |kids|
  {
    seq(m, i requires 0 <= i < m => LinkCnt(kids[i]))
  }

  /** Per child: the words of its tail, plus its own words when it qualifies. */
  function SetTextShares(tails: seq<nat>, kids: seq<Annot>, m: nat): (r: seq<nat>)
    requires |tails| == |kids| && m <= |kids|
  {
    seq(m, i requires 0 <= i < m =>
      tails[i] + if Qualifies(TextCnt(kids[i]), LinkCnt(kids[i])) then TextCnt(kids[i]) else 0)
  }

  /** Per child: its links when it qualifies. */
  function SetLinkShares(kids: seq<Annot>, m: nat): (r: seq<nat>)
    requires m <= |kids|
  {
    seq(m, i requires 0 <= i < m =>
      if Qualifies(TextCnt(kids[i]), LinkCnt(kids[i])) then LinkCnt(kids[i]) else 0)
  }

  /** In closed form, `textCnt` is the node's own words plus, for every
      child, its words and its tail's words. */
  lemma {:induction false} TextCntClosedForm(own: nat, tails: seq<nat>, kids: seq<Annot>, m: nat)
    requires |tails| == |kids| && m <= |kids|
    ensures Accumulate(own, tails, kids, m).textCnt == own + Sum(TextShares(tails, kids, m))
    decreases m
  {
    if m > 0 {
      TextCntClosedForm(own, tails, kids, m - 1);
      var x := TextCnt(kids[m - 1]) + tails[m - 1];
      assert TextShares(tails, kids, m) == TextShares(tails, kids, m - 1) + [x];
      SumSnoc(TextShares(tails, kids, m - 1), x);
    }
  }

  /** `linkCnt` is the sum of the children's links. */
  lemma {:induction false} LinkCntClosedForm(own: nat, tails: seq<nat>, kids: seq<Annot>, m: nat)
    requires |tails| == |kids| && m <= |kids|
    ensures Accumulate(own, tails, kids, m).linkCnt == Sum(LinkShares(kids, m))
    decreases m
  {
    if m > 0 {
      LinkCntClosedForm(own, tails, kids, m - 1);
      var x := LinkCnt(kids[m - 1]);
      assert LinkShares(kids, m) == LinkShares(kids, m - 1) + [x];
      SumSnoc(LinkShares(kids, m - 1), x);
    }
  }

  /** `setTextCnt` counts the node's own words and every tail, but only the
      qualifying children's words. */
  lemma {:induction false} SetTextCntClosedForm(own: nat, tails: seq<nat>, kids: seq<Annot>, m: nat)
    requires |tails| == |kids| && m <= |kids|
    ensures Accumulate(own, tails, kids, m).setTextCnt == own + Sum(SetTextShares(tails, kids, m))
    decreases m
  {
    if m > 0 {
      SetTextCntClosedForm(own, tails, kids, m - 1);
      var t := TextCnt(kids[m - 1]);
      var x := tails[m - 1] + if Qualifies(t, LinkCnt(kids[m - 1])) then t else 0;
      assert SetTextShares(tails, kids, m) == SetTextShares(tails, kids, m - 1) + [x];
      SumSnoc(SetTextShares(tails, kids, m - 1), x);
    }
  }

  /** `setLinkCnt` counts only the qualifying children's links. */
  lemma {:induction false} SetLinkCntClosedForm(own: nat, tails: seq<nat>, kids: seq<Annot>, m: nat)
    requires |tails| == |kids| && m <= |kids|
    ensures Accumulate(own, tails, kids, m).setLinkCnt == Sum(SetLinkShares(kids, m))
    decreases m
  {
    if m > 0 {
      SetLinkCntClosedForm(own, tails, kids, m - 1);
      var l := LinkCnt(kids[m - 1]);
      var x := if Qualifies(TextCnt(kids[m - 1]), l) then l else 0;
      assert SetLinkShares(kids, m) == SetLinkShares(kids, m - 1) + [x];
      SumSnoc(SetLinkShares(kids, m - 1), x);
    }
  }

  /** The annotation tree has the shape of the markup tree. */
  predicate Shaped(a: Annot, n: Node)
    decreases n
  {
    |a.kids| == |n.children| && forall i :: 0 <= i < |n.children| ==> Shaped(a.kids[i], n.children[i])
  }

  lemma {:induction false} BlankShaped(n: Node)
    ensures Shaped(Blank(n), n)
    decreases n
  {
    forall i | 0 <= i < |n.children|
      ensures Shaped(Blank(n).kids[i], n.children[i])
    {
      BlankShaped(n.children[i]);
    }
  }

  lemma {:induction false} AnnotateShaped(n: Node)
    ensures Shaped(Annotate(n), n)
    decreases n
  {
    if IsAnchor(n) {
      BlankShaped(n);
    } else {
      forall i | 0 <= i < |n.children|
        ensures Shaped(Annotate(n).kids[i], n.children[i])
      {
        AnnotatedKid(n, i);
        AnnotateShaped(n.children[i]);
      }
    }
  }
}
