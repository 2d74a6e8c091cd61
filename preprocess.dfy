/** `preprocess`: every subtree rooted at a forbidden element or at a
    comment is removed from below the body, and the removed node's tail text
    stays in the document (`strip_elements(..., with_tail=False)`).

    `Strip` is the specification, a bottom-up rewrite of the whole tree;
    `Preprocess` is the walk that does it child by child. The root itself is
    never removed, only its descendants. */
module Preprocess {
  import opened Tree

  /** The tags whose subtrees are removed. */
  const ForbiddenTags: seq<string> :=
    ["img", "span", "video", "button", "select", "iframe", "script", "noscript", "style"]

  /** A node whose subtree is removed: a forbidden tag, or a comment. */
  predicate Forbidden(n: Node)
    ensures n.kind == Element("form") ==> !Forbidden(n)
  {
    n.kind.Comment? || n.kind.tag in ForbiddenTags
  }

  /** For each child, whether it survives. */
  function Survivors(kids: seq<Node>): (r: seq<bool>)
    ensures |r| == |kids|
  {
    seq(|kids|, i requires 0 <= i < |kids| => !Forbidden(kids[i]))
  }

  /** The tree after preprocessing. */
  function Strip(n: Node): (r: Node)
    ensures r.kind == n.kind && r.tail == n.tail
    decreases n, 1
  {
    var kids := StrippedKids(n);
    var d := Detach(n.text, kids, Survivors(kids));
    Node(n.kind, d.text, n.tail, d.kids)
  }

  /** No forbidden node and no comment anywhere below `n`. */
  predicate Clean(n: Node)
    decreases n
  {
    forall i :: 0 <= i < |n.children| ==> !Forbidden(n.children[i]) && Clean(n.children[i])
  }

  /** The children of `n`, each preprocessed. */
  function StrippedKids(n: Node): (r: seq<Node>)
    ensures |r| == |n.children|
    decreases n, 0
  {
    seq(|n.children|, i requires 0 <= i < |n.children| => Strip(n.children[i]))
  }

  /** The `i`-th stripped child, which keeps the kind and the tail of the
      original one. (Stated as a lemma, to be called where it is needed.) */
  lemma StrippedKid(n: Node, i: nat)
    requires i < |n.children|
    ensures StrippedKids(n)[i] == Strip(n.children[i])
    ensures StrippedKids(n)[i].kind == n.children[i].kind
    ensures StrippedKids(n)[i].tail == n.children[i].tail
  {
  }

  /** `preprocess`, going through the children in document order: a
      forbidden child is detached (its tail moves to the previous kept
      child, or to the parent's text), any other child is preprocessed in
      turn and kept. */
  method Preprocess(n: Node) returns (r: Node)
    ensures r == Strip(n)
    decreases n
  {
    ghost var kids := StrippedKids(n);
    ghost var keep := Survivors(kids);
    var text, kept := n.text, [];
    var i := 0;
    while i < |n.children|
      invariant 0 <= i <= |n.children|
      invariant Spliced(text, kept) == DetachUpTo(n.text, kids, keep, i)
    {
      var c := n.children[i];
      StripStep(n, kids, keep, i, text, kept);
      if !Forbidden(c) {
        var s := Preprocess(c);
        kept := kept + [s];
      } else if kept == [] {
        text := text + c.tail;
      } else {
        var k := |kept| - 1;
        kept := kept[k := WithTail(kept[k], c.tail)];
      }
      i := i + 1;
    }
    r := Node(n.kind, text, n.tail, kept);
  }

  /** One step of the walk, stated on the stripped children. */
  lemma StripStep(n: Node, kids: seq<Node>, keep: seq<bool>, i: nat, text: string, kept: seq<Node>)
    requires kids == StrippedKids(n) && keep == Survivors(kids) && i < |kids|
    requires Spliced(text, kept) == DetachUpTo(n.text, kids, keep, i)
    ensures var c := n.children[i];
      DetachUpTo(n.text, kids, keep, i + 1) ==
        if !Forbidden(c) then Spliced(text, kept + [Strip(c)])
        else if kept == [] then Spliced(text + c.tail, [])
        else Spliced(text, kept[|kept| - 1 := WithTail(kept[|kept| - 1], c.tail)])
  {
    StrippedKid(n, i);
  }

  /** A node that is already clean is left as it is. */
  lemma {:induction false} StripCleanFixed(n: Node)
    requires Clean(n)
    ensures Strip(n) == n
    decreases n
  {
    var kids := StrippedKids(n);
    forall i | 0 <= i < |n.children|
      ensures kids[i] == n.children[i]
    {
      StrippedKid(n, i);
      StripCleanFixed(n.children[i]);
    }
    assert kids == n.children;
    DetachKeepAll(n.text, kids, Survivors(kids), |kids|);
    assert kids[..|kids|] == kids;
  }

  /** After preprocessing nothing forbidden is left, at any depth. */
  lemma {:induction false} StripIsClean(n: Node)
    ensures Clean(Strip(n))
    decreases n
  {
    var kids := StrippedKids(n);
    forall j | 0 <= j < |kids|
      ensures Clean(kids[j])
    {
      StrippedKid(n, j);
      StripIsClean(n.children[j]);
    }
    SurvivorsClean(n.text, kids, Survivors(kids));
  }

  /** Detaching the forbidden children of clean children leaves only clean,
      permitted children. */
  lemma SurvivorsClean(text: string, kids: seq<Node>, keep: seq<bool>)
    requires keep == Survivors(kids)
    requires forall j :: 0 <= j < |kids| ==> Clean(kids[j])
    ensures var d := Detach(text, kids, keep);
      forall k :: 0 <= k < |d.kids| ==> !Forbidden(d.kids[k]) && Clean(d.kids[k])
  {
    var d := Detach(text, kids, keep);
    var ix := KeptUpTo(keep, |kids|);
    DetachSpec(text, kids, keep, |kids|);
    forall k | 0 <= k < |d.kids|
      ensures !Forbidden(d.kids[k]) && Clean(d.kids[k])
    {
      var j := ix[k];
      KeptChildClean(d.kids[k], kids[j], TailsIn(kids, j + 1, NextKept(ix, k, |kids|)));
    }
  }

  /** A surviving child stays clean when tail text is appended to it. */
  lemma KeptChildClean(c: Node, kid: Node, t: string)
    requires c == WithTail(kid, t) && !Forbidden(kid) && Clean(kid)
    ensures !Forbidden(c) && Clean(c)
  {
  }

  /** Running `preprocess` a second time changes nothing. */
  lemma StripIdempotent(n: Node)
    ensures Strip(Strip(n)) == Strip(n)
  {
    StripIsClean(n);
    StripCleanFixed(Strip(n));
  }

  /** No tail text is lost at the top level: the body's own text followed
      by its children's tails reads the same after preprocessing (the
      removed children's tails are spliced in where they stood). */
  lemma StripKeepsTopText(n: Node)
    ensures var r := Strip(n);
      r.text + TailsIn(r.children, 0, |r.children|) == n.text + TailsIn(n.children, 0, |n.children|)
  {
    var kids := StrippedKids(n);
    DetachKeepsText(n.text, kids, Survivors(kids), |kids|);
    forall i | 0 <= i < |kids|
      ensures kids[i].tail == n.children[i].tail
    {
      StrippedKid(n, i);
    }
    TailsSameTails(kids, n.children, |kids|);
  }

  /** Two child lists with the same tails, position by position, have the
      same concatenated tails. */
  lemma {:induction false} TailsSameTails(s: seq<Node>, s': seq<Node>, b: nat)
    requires b <= |s| && b <= |s'|
    requires forall i :: 0 <= i < b ==> s[i].tail == s'[i].tail
    ensures TailsIn(s, 0, b) == TailsIn(s', 0, b)
    decreases b
  {
    if b > 0 {
      TailsSameTails(s, s', b - 1);
    }
  }

  /** Where each child ends up: the `k`-th remaining child is the
      preprocessed form of the `k`-th child that is not forbidden, its tail
      followed by the tails of the forbidden children up to the next
      surviving one; the tails of the forbidden children before the first
      survivor follow the parent's own text. */
  lemma StripPlacesChildren(n: Node)
    ensures var kids := StrippedKids(n);
      SplicedAs(Spliced(Strip(n).text, Strip(n).children), n.text, kids,
                KeptUpTo(Survivors(kids), |kids|), |kids|)
  {
    var kids := StrippedKids(n);
    DetachSpec(n.text, kids, Survivors(kids), |kids|);
  }
}
