/** The markup tree the extraction works on, and the one way it changes it:
    detaching children while keeping their tail text.

    A node has a kind (an element with its tag, or a comment), its own
    text, its tail text (the text after its end tag, before the next
    sibling) and its ordered children. Absent text is the empty string.

    Both `strip_elements(..., with_tail=False)` and `drop_tree` remove a
    child and its subtree but leave its tail in the document, where it joins
    the tail of the nearest kept sibling before it, or the parent's own text
    when there is none. `Detach` is that splice, applied to a whole child
    list at once; `DetachSpec` says where every piece of text ends up. */
module Tree {

  datatype Kind = Element(tag: string) | Comment

  datatype Node = Node(kind: Kind, text: string, tail: string, children: seq<Node>)

  /** A hyperlink element, `<a>`. */
  predicate IsAnchor(n: Node) {
    n.kind == Element("a")
  }

  /** The tail texts of `kids[a..b]`, concatenated in document order. */
  function TailsIn(kids: seq<Node>, a: nat, b: nat): (r: string)
    requires a <= b <= |kids|
    decreases b
  {
    if a == b then "" else TailsIn(kids, a, b - 1) + kids[b - 1].tail
  }

  /** `n` with `extra` appended to its tail. */
  function WithTail(n: Node, extra: string): Node {
    n.(tail := n.tail + extra)
  }

  /** A parent's own text and child list. */
  datatype Spliced = Spliced(text: string, kids: seq<Node>)

  /** The parent's text and children after going through the first `m`
      children in document order and detaching every one whose flag in
      `keep` is false. */
  function DetachUpTo(text: string, kids: seq<Node>, keep: seq<bool>, m: nat): (r: Spliced)
    requires |keep| == |kids| && m <= |kids|
    decreases m
  {
    if m == 0 then Spliced(text, [])
    else
      var acc := DetachUpTo(text, kids, keep, m - 1);
      var c := kids[m - 1];
      if keep[m - 1] then Spliced(acc.text, acc.kids + [c])
      else if acc.kids == [] then Spliced(acc.text + c.tail, [])
      else
        var k := |acc.kids| - 1;
        Spliced(acc.text, acc.kids[k := WithTail(acc.kids[k], c.tail)])
  }

  /** The parent's text and children after detaching every child whose flag
      in `keep` is false. */
  function Detach(text: string, kids: seq<Node>, keep: seq<bool>): (r: Spliced)
    requires |keep| == |kids|
  {
    DetachUpTo(text, kids, keep, |kids|)
  }

  /** The positions below `m` whose flag is set, in increasing order. */
  function KeptUpTo(keep: seq<bool>, m: nat): (r: seq<nat>)
    requires m <= |keep|
    ensures forall k :: 0 <= k < |r| ==> r[k] < m && keep[r[k]]
    ensures forall k, l :: 0 <= k < l < |r| ==> r[k] < r[l]
    ensures forall i :: 0 <= i < m && keep[i] ==> i in r
    decreases m
  {
    if m == 0 then []
    else KeptUpTo(keep, m - 1) + (if keep[m - 1] then [m - 1] else [])
  }

  /** The first kept position, or `m` when there is none. */
  function FirstKept(ix: seq<nat>, m: nat): (r: nat) {
    if ix == [] then m else ix[0]
  }

  /** The kept position after the `k`-th one, or `m` when there is none. */
  function NextKept(ix: seq<nat>, k: nat, m: nat): (r: nat) {
    if k + 1 < |ix| then ix[k + 1] else m
  }

  /** Where the text goes after going through the first `m` children, with
      `ix` the positions kept: the kept children stay, in order and otherwise
      unchanged, except that each one's tail is followed by the tails of the
      detached children up to the next kept one; the tails of the detached
      children before the first kept one join the parent's text. */
  predicate SplicedAs(r: Spliced, text: string, kids: seq<Node>, ix: seq<nat>, m: nat)
    requires m <= |kids|
    requires forall k :: 0 <= k < |ix| ==> ix[k] < m
    requires forall k, l :: 0 <= k < l < |ix| ==> ix[k] < ix[l]
  {
    && |r.kids| == |ix|
    && r.text == text + TailsIn(kids, 0, FirstKept(ix, m))
    && forall k {:trigger r.kids[k]} :: 0 <= k < |ix| ==>
         r.kids[k] == WithTail(kids[ix[k]], TailsIn(kids, ix[k] + 1, NextKept(ix, k, m)))
  }

  /** `Detach` places text as `SplicedAs` says. */
  lemma {:induction false} DetachSpec(text: string, kids: seq<Node>, keep: seq<bool>, m: nat)
    requires |keep| == |kids| && m <= |kids|
    ensures SplicedAs(DetachUpTo(text, kids, keep, m), text, kids, KeptUpTo(keep, m), m)
    decreases m
  {
    if m > 0 {
      DetachSpec(text, kids, keep, m - 1);
      if keep[m - 1] {
        DetachSpecKept(text, kids, keep, m);
      } else {
        DetachSpecDropped(text, kids, keep, m);
      }
    }
  }

  lemma DetachSpecKept(text: string, kids: seq<Node>, keep: seq<bool>, m: nat)
    requires |keep| == |kids| && 0 < m <= |kids| && keep[m - 1]
    requires SplicedAs(DetachUpTo(text, kids, keep, m - 1), text, kids, KeptUpTo(keep, m - 1), m - 1)
    ensures SplicedAs(DetachUpTo(text, kids, keep, m), text, kids, KeptUpTo(keep, m), m)
  {
    var ix0 := KeptUpTo(keep, m - 1);
    assert KeptUpTo(keep, m) == ix0 + [m - 1];
    KeptAppended(text, kids, ix0, m, DetachUpTo(text, kids, keep, m - 1), DetachUpTo(text, kids, keep, m));
  }

  lemma KeptAppended(text: string, kids: seq<Node>, ix0: seq<nat>, m: nat, acc: Spliced, r: Spliced)
    requires 0 < m <= |kids|
    requires forall k :: 0 <= k < |ix0| ==> ix0[k] < m - 1
    requires forall k, l :: 0 <= k < l < |ix0| ==> ix0[k] < ix0[l]
    requires SplicedAs(acc, text, kids, ix0, m - 1)
    requires r == Spliced(acc.text, acc.kids + [kids[m - 1]])
    ensures SplicedAs(r, text, kids, ix0 + [m - 1], m)
  {
    var ix := ix0 + [m - 1];
    assert FirstKept(ix, m) == FirstKept(ix0, m - 1);
    forall k | 0 <= k < |ix|
      ensures r.kids[k] == WithTail(kids[ix[k]], TailsIn(kids, ix[k] + 1, NextKept(ix, k, m)))
    {
      if k < |ix0| {
        assert ix[k] == ix0[k] && r.kids[k] == acc.kids[k];
        assert NextKept(ix, k, m) == NextKept(ix0, k, m - 1);
      } else {
        assert WithTail(kids[m - 1], "") == kids[m - 1];
      }
    }
  }

  lemma DetachSpecDropped(text: string, kids: seq<Node>, keep: seq<bool>, m: nat)
    requires |keep| == |kids| && 0 < m <= |kids| && !keep[m - 1]
    requires SplicedAs(DetachUpTo(text, kids, keep, m - 1), text, kids, KeptUpTo(keep, m - 1), m - 1)
    ensures SplicedAs(DetachUpTo(text, kids, keep, m), text, kids, KeptUpTo(keep, m), m)
  {
    var acc, ix := DetachUpTo(text, kids, keep, m - 1), KeptUpTo(keep, m);
    assert ix == KeptUpTo(keep, m - 1);
    if acc.kids == [] {
      DroppedBeforeAll(text, kids, m, acc, DetachUpTo(text, kids, keep, m));
    } else {
      DroppedAfterKept(text, kids, ix, m, acc, DetachUpTo(text, kids, keep, m));
    }
  }

  lemma DroppedBeforeAll(text: string, kids: seq<Node>, m: nat, acc: Spliced, r: Spliced)
    requires 0 < m <= |kids|
    requires acc == Spliced(text + TailsIn(kids, 0, m - 1), [])
    requires r == Spliced(acc.text + kids[m - 1].tail, [])
    ensures r.text == text + TailsIn(kids, 0, m)
  {
    Associative(text, TailsIn(kids, 0, m - 1), kids[m - 1].tail);
  }

  lemma DroppedAfterKept(text: string, kids: seq<Node>, ix: seq<nat>, m: nat, acc: Spliced, r: Spliced)
    requires 0 < m <= |kids| && 0 < |acc.kids|
    requires forall k :: 0 <= k < |ix| ==> ix[k] < m - 1
    requires forall k, l :: 0 <= k < l < |ix| ==> ix[k] < ix[l]
    requires SplicedAs(acc, text, kids, ix, m - 1)
    requires var k := |acc.kids| - 1;
      r == Spliced(acc.text, acc.kids[k := WithTail(acc.kids[k], kids[m - 1].tail)])
    ensures SplicedAs(r, text, kids, ix, m)
  {
    var k := |acc.kids| - 1;
    forall j | 0 <= j < |ix|
      ensures r.kids[j] == WithTail(kids[ix[j]], TailsIn(kids, ix[j] + 1, NextKept(ix, j, m)))
    {
      if j < k {
        assert r.kids[j] == acc.kids[j];
      } else {
        assert NextKept(ix, k, m - 1) == m - 1 && NextKept(ix, k, m) == m;
        DroppedLast(kids, ix[k], m, acc.kids[k], r.kids[k]);
      }
    }
  }

  /** Appending the tail of the child at `m - 1` to the last kept child at
      `i` extends its run of absorbed tails by one. */
  lemma DroppedLast(kids: seq<Node>, i: nat, m: nat, last: Node, updated: Node)
    requires i < m - 1 && m <= |kids|
    requires last == WithTail(kids[i], TailsIn(kids, i + 1, m - 1))
    requires updated == WithTail(last, kids[m - 1].tail)
    ensures updated == WithTail(kids[i], TailsIn(kids, i + 1, m))
  {
    WithTailTwice(kids[i], TailsIn(kids, i + 1, m - 1), kids[m - 1].tail);
  }

  lemma Associative(a: string, b: string, c: string)
    ensures (a + b) + c == a + (b + c)
  {
  }

  lemma WithTailTwice(n: Node, x: string, y: string)
    ensures WithTail(WithTail(n, x), y) == WithTail(n, x + y)
  {
    assert n.tail + x + y == n.tail + (x + y);
  }

  /** No text outside the detached subtrees is lost: the parent's text
      followed by its children's tails reads the same before and after. */
  lemma {:induction false} DetachKeepsText(text: string, kids: seq<Node>, keep: seq<bool>, m: nat)
    requires |keep| == |kids| && m <= |kids|
    ensures var r := DetachUpTo(text, kids, keep, m);
      r.text + TailsIn(r.kids, 0, |r.kids|) == text + TailsIn(kids, 0, m)
    decreases m
  {
    if m > 0 {
      DetachKeepsText(text, kids, keep, m - 1);
      var acc := DetachUpTo(text, kids, keep, m - 1);
      var t := kids[m - 1].tail;
      var n := |acc.kids|;
      if keep[m - 1] {
        var kids' := acc.kids + [kids[m - 1]];
        TailsInPrefix(acc.kids, kids', n);
        Associative(acc.text, TailsIn(acc.kids, 0, n), t);
        Associative(text, TailsIn(kids, 0, m - 1), t);
      } else if n == 0 {
        Associative(text, TailsIn(kids, 0, m - 1), t);
      } else {
        var last := acc.kids[n - 1];
        var kids' := acc.kids[n - 1 := WithTail(last, t)];
        TailsInPrefix(acc.kids, kids', n - 1);
        Associative(TailsIn(acc.kids, 0, n - 1), last.tail, t);
        Associative(acc.text, TailsIn(acc.kids, 0, n), t);
        Associative(text, TailsIn(kids, 0, m - 1), t);
      }
    }
  }

  /** The tails of a common prefix agree. */
  lemma {:induction false} TailsInPrefix(s: seq<Node>, s': seq<Node>, b: nat)
    requires b <= |s| && b <= |s'|
    requires forall i :: 0 <= i < b ==> s[i] == s'[i]
    ensures TailsIn(s, 0, b) == TailsIn(s', 0, b)
    decreases b
  {
    if b > 0 {
      TailsInPrefix(s, s', b - 1);
    }
  }

  /** Keeping every child changes nothing. */
  lemma {:induction false} DetachKeepAll(text: string, kids: seq<Node>, keep: seq<bool>, m: nat)
    requires |keep| == |kids| && m <= |kids|
    requires forall j :: 0 <= j < |keep| ==> keep[j]
    ensures DetachUpTo(text, kids, keep, m) == Spliced(text, kids[..m])
    decreases m
  {
    if m > 0 {
      DetachKeepAll(text, kids, keep, m - 1);
      assert kids[..m - 1] + [kids[m - 1]] == kids[..m];
    }
  }

  /** A path of child positions from `n` downwards that exists in `n`. */
  predicate ValidPath(n: Node, p: seq<nat>) {
    p == [] || (p[0] < |n.children| && ValidPath(n.children[p[0]], p[1..]))
  }

  /** The node at the end of path `p`. */
  function NodeAt(n: Node, p: seq<nat>): Node
    requires ValidPath(n, p)
  {
    if p == [] then n else NodeAt(n.children[p[0]], p[1..])
  }
}
