# CoreEx content extraction, modelled in Dafny

CoreEx picks the main content out of a news or blog page. It works on the
`<body>` of the parsed page in four steps:

1. `preprocess` removes every subtree rooted at a forbidden element or a
   comment. The tail text of each removed node stays in the document.
2. `create_subsets` counts words in post-order. An anchor (`<a>`) gets
   `textCnt = linkCnt = 1`, whatever its words, and nothing below it is
   visited. Every other node gets `textCnt` (its own words, its children's
   weights and its children's tails) and `linkCnt` (the summed `linkCnt` of
   its children, so each anchor below it weighs 1). Every node
   other than an anchor also gets a set `S` of qualifying children: a child
   qualifies when more than 90% of its words lie outside links. The node
   also gets `setTextCnt` and `setLinkCnt`, the counts restricted to its own
   text, its children's tails and the members of `S`.
3. `set_scores` gives a score to every node that has `S`, provided its set
   has words and the page has words. Otherwise the division in
   `score_node` fails and the node stays unscored. The score weighs the
   non-link share of the set's words (0.95) against the set's share of the
   page's words (0.05).
4. `summary` chooses the node with the highest score and drops each child
   of it that is not in `S`.

The model has six modules, one per file:

- `Words` (words.dfy): `normalize` and `count_words`.
- `Tree` (tree.dfy): the markup tree, and the tail-preserving detach shared
  by `strip_elements(..., with_tail=False)` and `drop_tree`.
- `Preprocess` (preprocess.dfy): `preprocess`.
- `Subsets` (subsets.dfy): `create_subsets`.
- `Scoring` (scoring.dfy): `score_node` and `set_scores`.
- `Extract` (extract.dfy): the selection and pruning at the end of `summary`.

Every step except `max` is written twice:

- as a specification function on values (`Strip`, `Annotate`, `ScoreAll`,
  `Pruned`, `Extract`);
- as a method that runs the way the Python code does (`Preprocess`,
  `CreateSubsets`, `SetScores`, `Prune`, `Summary`).

`Preprocess`, `SetScores` and `Prune` go through the children in a loop.
`CreateSubsets` calls `CountChildren`, which holds the loop over the
children, and `AddChild`, one turn of it. `Summary` calls the other methods
in sequence. `max` is modelled only as the function `Best`. Each method is
proved equal to its function, and the properties are proved about the
functions.

The attributes that the Python code stores on lxml elements (`textCnt`, `S`,
`score`, ...) are kept in an annotation tree `Annot` that runs parallel to
the markup tree. A node's state is one of:

- `Counted`: the node went through the counting branch and has all the
  attributes.
- `Anchored`: the node is an `<a>`; it has only `textCnt = linkCnt = 1`.
- `Unannotated`: the node lies below an anchor and the pass never visits it.

Members of `S` are named by their position among the children. Absent text
(`None`) is the empty string. A missing `page_text` is 0; both are falsy in
the `or` of `set_scores`.

Two further points about the model:

- The ratio test `(t - l) / t > 0.9` is proved equal to the integer test
  `(t - l) * 10 > 9 * t` (`RatioIsQualifies`). Only `AddChild` computes the
  ratio as the Python code does; all other reasoning uses the integer test.
- The forbidden list follows the code at coreex/coreex.py:32-43. The
  docstring above that list names `<form>`, which the list does not contain.
  The docstring leaves out `span`, `video`, `button`, `select` and
  `noscript`, which the list does contain.

## Model

| member | source | states |
|---|---|---|
| Words.Normalize | coreex/coreex.py:47-53 | `normalize` as mark removal; it never lengthens the text; `NormalizeMark`, `NormalizeUnmarked` and `NormalizeConcat` state that it removes exactly the marks, character by character, and `NormalizeUnmarks` that none remains |
| Words.FindAll | coreex/coreex.py:59 | `re.findall(r"\w+", ...)`: the maximal runs of word characters, left to right; `FindAllTokens`, `FindAllSplit` and `CountWordsIsRunStarts` state what it returns |
| Words.FindAllBound | coreex/coreex.py:59 | there are never more matches than characters |
| Words.CountWords | coreex/coreex.py:56-59 | `count_words`: the number of matches in the normalised text, at most the text's length; `CountWordsIsRunStarts` gives its independent count |
| Words.NormalizeMark | coreex/coreex.py:52-53 | a mark on its own normalises to nothing: together with `NormalizeConcat`, every mark is removed and every other character is kept in place |
| Words.NormalizeUnmarks | coreex/coreex.py:47-53 | normalised text contains no combining mark |
| Words.NormalizeUnmarked | coreex/coreex.py:47-53 | text without combining marks is its own normal form |
| Words.NormalizeConcat | coreex/coreex.py:52-53 | normalisation works character by character: it distributes over concatenation |
| Words.FindAllTokens | coreex/coreex.py:59 | every match of `\w+` is a non-empty run of word characters |
| Words.FindAllSkips | coreex/coreex.py:59 | a leading non-word character does not change the matches |
| Words.FindAllTakesRun | coreex/coreex.py:59 | a whole run of word characters that ends at a non-word character is one match, followed by the matches of the rest |
| Words.FindAllSplit | coreex/coreex.py:59 | a non-word character ends every match: the matches of `x + [c] + y` are those of `x` followed by those of `y` |
| Words.CountWordsSplit | coreex/coreex.py:56-59 | a character that is neither a word character nor a mark separates words: the counts on either side add up |
| Words.OneWord | coreex/coreex.py:56-59 | a non-empty run of word characters counts one word |
| Words.WordThenSeparator | coreex/coreex.py:56-59 | a word followed by a separator counts one plus the words after the separator |
| Words.CountWordsIsRunStarts | coreex/coreex.py:56-59 | `count_words` equals the number of positions of the normalised text where a maximal run of word characters begins |
| Words.NoWordsIffNoWordChar | coreex/coreex.py:56-59 | a text counts zero words iff its normal form has no word character; the empty text (standing in for `None` via `or ""`) counts 0 |
| Words.ExampleSpaces | coreex/coreex.py:56-59 | "one two  three" counts 3: runs of spaces separate words |
| Words.ExampleDocstring | coreex/coreex.py:49-50 | the sentence of the `normalize` documentation, accents precomposed, counts 5 words |
| Words.ExamplePrecomposed | coreex/coreex.py:56-59 | a word with a precomposed accented letter counts 1 |
| Words.ExampleCombining | coreex/coreex.py:49-53 | a combining accent, at the end or inside a word, does not split the word |
| Tree.DetachUpTo | coreex/coreex.py:44 | the detach as lxml performs it, child by child: a detached child's tail goes to the previous kept child's tail, or to the parent's text; `DetachSpec` and `DetachKeepsText` state the result |
| Tree.DetachSpec | coreex/coreex.py:44 | detaching places every piece of text: the kept children stay in order, each followed by the tails of the detached children up to the next kept one; tails before the first kept child join the parent's text |
| Tree.DetachKeepsText | coreex/coreex.py:44 | the parent's text plus its children's tails reads the same before and after detaching |
| Tree.DetachKeepAll | coreex/coreex.py:44 | keeping every child changes nothing |
| Preprocess.Forbidden | coreex/coreex.py:32-43 | a comment or one of the nine listed tags; `<form>` is not among them, although the docstring names it; `StripIsClean` states that none is left |
| Preprocess.Preprocess | coreex/coreex.py:21-44 | the child-by-child strip equals `Strip`, the bottom-up removal of forbidden subtrees with their tails kept |
| Preprocess.Strip | coreex/coreex.py:44 | the root itself is never removed: it keeps its kind and tail |
| Preprocess.StripIsClean | coreex/coreex.py:32-44 | afterwards no element with a forbidden tag and no comment is left at any depth |
| Preprocess.StripCleanFixed | coreex/coreex.py:44 | a tree with nothing forbidden is left unchanged |
| Preprocess.StripIdempotent | coreex/coreex.py:44 | running `preprocess` twice is the same as once |
| Preprocess.StripKeepsTopText | coreex/coreex.py:44 | the body's text plus its children's tails is unchanged: the tails of removed children are kept |
| Preprocess.StripPlacesChildren | coreex/coreex.py:44 | the remaining children are the preprocessed surviving children, in order, with the removed siblings' tails appended where they stood |
| Subsets.RatioIsQualifies | coreex/coreex.py:87-90 | the real-valued ratio test and the integer test `(t-l)*10 > 9*t` agree on every pair of counts |
| Subsets.QualifiesFewLinks | coreex/coreex.py:87-90 | a qualifying child has fewer than a tenth of its words in links |
| Subsets.Step | coreex/coreex.py:80-93 | one turn of the loop: child `i` joins `S` iff it was in already or it passes the ratio test; the closed-form lemmas state the totals |
| Subsets.AddChild | coreex/coreex.py:80-93 | one turn of the loop, with the ratio computed in reals as the Python code does, equals `Step` |
| Subsets.Accumulate | coreex/coreex.py:71-93 | after any number of turns, `setLinkCnt <= setTextCnt <= textCnt` |
| Subsets.AccumulateSubset | coreex/coreex.py:76-91 | `S` holds exactly the children seen so far that have words and pass the ratio test |
| Subsets.AccumulateCoversKids | coreex/coreex.py:80-84 | no child has more words than its parent |
| Subsets.AccumulateLinks | coreex/coreex.py:80-81 | links stay within words when they do so for every child |
| Subsets.TextCntClosedForm | coreex/coreex.py:71-84 | `textCnt` = own words + sum over children of (child's words + tail's words) |
| Subsets.LinkCntClosedForm | coreex/coreex.py:72-81 | `linkCnt` = sum of the children's link counts |
| Subsets.SetTextCntClosedForm | coreex/coreex.py:73-92 | `setTextCnt` = own words + every child's tail words + the words of the members of `S` |
| Subsets.SetLinkCntClosedForm | coreex/coreex.py:74-93 | `setLinkCnt` = the links of the members of `S` |
| Subsets.Annotate | coreex/coreex.py:62-93 | every node the pass visits gets attributes (it is never left unannotated) and no score yet |
| Subsets.CreateSubsets | coreex/coreex.py:62-93 | the recursive pass, as the Python code runs it, equals `Annotate` |
| Subsets.CountChildren | coreex/coreex.py:70-93 | the loop over the children of a non-anchor equals the recursive definition `Accumulate` over the children's annotations |
| Subsets.AnnotateWellCounted | coreex/coreex.py:62-93 | every node of the result satisfies `WellCounted`: links within words, set counts within totals, `S` exactly the qualifying children, children within the parent's words, nothing below an anchor annotated |
| Subsets.WellCountedLinks | coreex/coreex.py:66-85 | `0 <= linkCnt <= textCnt` for every node the pass went through |
| Subsets.AnchorCounts | coreex/coreex.py:66-68 | an anchor gets `textCnt = linkCnt = 1` whatever its text, no `S`, and nothing below it is annotated |
| Subsets.BlankUntouched | coreex/coreex.py:66-68 | the subtree below an anchor carries no attributes |
| Subsets.AnnotateShaped | coreex/coreex.py:78-79 | the annotation tree has the shape of the markup tree |
| Scoring.NodeScore | coreex/coreex.py:96-110 | `score_node`: a node with `S`, a set with words and a page with words gets a score; any other node keeps the score it had (the `except` path); `NodeScoreAsDesigned` states its range |
| Scoring.PageFor | coreex/coreex.py:120 | `page_text or elements.textCnt`: a known page count is kept, and the count is 0 only when the page count is missing and the node has no words |
| Scoring.ScoreAll | coreex/coreex.py:113-125 | scoring keeps every node's attributes and number of children |
| Scoring.SetScores | coreex/coreex.py:113-125 | the recursive walk, as the Python code runs it, equals `ScoreAll` |
| Scoring.ScoreAllOnlyScores | coreex/coreex.py:96-125 | `set_scores` changes nothing but scores, anywhere in the tree |
| Scoring.WellCountedScorable | coreex/coreex.py:120 | on the output of `create_subsets` the `textCnt` lookup in `page_text or elements.textCnt` never fails |
| Scoring.NodeScoreAsDesigned | coreex/coreex.py:96-110 | a node gets a score iff it has `S` and `setTextCnt > 0`, and the score lies in (0, 1] |
| Scoring.ScoreInUnitRange | coreex/coreex.py:98-99 | the formula is positive and at most `weight_ratio + weight_text = 1` when `setLinkCnt <= setTextCnt <= page_text` |
| Scoring.ScoreAllAsDesigned | coreex/coreex.py:96-125 | throughout a scored tree, a node has a score iff it has `S` with words, and every score lies in (0, 1] |
| Scoring.RootPageCount | coreex/coreex.py:120 | with no page count, the root's own word count is used and handed down |
| Scoring.PageThreaded | coreex/coreex.py:120-123 | once known, the page count is passed down unchanged, so every node is scored against it |
| Scoring.AnnotateThenScore | coreex/coreex.py:143-144 | after `create_subsets` and `set_scores`, every score is as designed; when the page has words, every node is scored against the page's word count |
| Extract.Key | coreex/coreex.py:146 | the key `max` compares: the node's score, or 0 for an unscored node |
| Extract.Best | coreex/coreex.py:146 | `max` over the tree in pre-order, keeping the first maximum: the winner's key is at least the root's; `BestIsCandidate` and `BestIsMaximal` state the rest |
| Extract.BestIsCandidate | coreex/coreex.py:146 | the winner of `max` is a node of the tree, and its key is that node's key |
| Extract.BestIsMaximal | coreex/coreex.py:146 | no node has a higher key than the winner |
| Extract.Pruned | coreex/coreex.py:148-153 | pruning keeps the chosen node's kind and tail |
| Extract.Prune | coreex/coreex.py:148-153 | the child-by-child pruning loop equals `Pruned` |
| Extract.PrunedKeepsS | coreex/coreex.py:148-153 | after pruning the children are exactly the members of `S`, in document order, each followed by the dropped children's tails up to the next member |
| Extract.PrunedWithoutS | coreex/coreex.py:149-153 | a chosen node without `S` loses all its children; their tails follow its text |
| Extract.PrunedClean | coreex/coreex.py:148-153 | pruning a clean node leaves it clean |
| Extract.Scored | coreex/coreex.py:143-144 | the scored annotation has the shape of the preprocessed tree, differs from the counted one only in scores, and is scored as designed |
| Extract.Choose | coreex/coreex.py:146-153 | the result is the winning node pruned: it has that node's kind and tail |
| Extract.Extract | coreex/coreex.py:140-155 | `summary` on values: the result is the winner of `max` over the preprocessed, counted and scored tree, with that node's kind and tail; `ExtractChoosesBest`, `ExtractKeepsS` and `ExtractIsClean` state the rest |
| Extract.Summary | coreex/coreex.py:140-155 | the whole pipeline, run step by step, equals `Extract` |
| Extract.ExtractChoosesBest | coreex/coreex.py:140-146 | the chosen node has the highest key of all live nodes and a key of at least 0 (the key of the stripped candidates); if any node is scored, the chosen node is scored and has `S` |
| Extract.ExtractKeepsS | coreex/coreex.py:146-153 | the result is the chosen node pruned to `S`, whose members are exactly the children that passed the ratio test; without `S` it has no children |
| Extract.ExtractIsClean | coreex/coreex.py:142-153 | the result holds no forbidden element and no comment at any depth |

## Left out

- Parsing and root lookup (coreex/coreex.py:134-136) are lxml I/O. The
  model starts from the body as a given tree.
- Words.IsMark: `normalize` removes every code point of five combining blocks
  (U+0300–036F, U+1AB0–1AFF, U+1DC0–1DFF, U+20D0–20FF, U+FE20–FE2F),
  unassigned ones included. Marks outside these blocks are kept. The NFKD
  decomposition itself, including compatibility forms such as `¼` → `1⁄4`
  and ligatures, is not modelled. The Unicode character database is a
  foreign library.
- A precomposed Latin-1 letter counts as a word character directly. For
  these letters that gives the same count as decomposing and then
  dropping the mark.
- Words.IsWordChar: `\w` is modelled as the ASCII letters, digits and underscore plus the
  Latin-1 letters and numeric characters. Python's full Unicode `\w` is not
  modelled.
- Floating point is not modelled: ratios and scores are exact reals.
- lxml elements are mutated in place, and attributes are stored on
  element proxies through `__dict__` (coreex/coreex.py:102, 138-140, 146).
  The model works on values: the methods return new trees and annotation
  trees, so aliasing between the candidate set and the tree is not
  captured.
- Tie-breaking differs from the Python code. `max` over the Python set
  `alive` (coreex/coreex.py:140, 146) breaks ties in set iteration order.
  The model takes the first maximum in pre-order, so of two tied nodes it
  keeps the ancestor. The two agree on the winning key, but they can
  return different nodes when keys tie. Ties do happen among scored nodes.
  Take a wrapper whose only qualifying child holds all its words. The
  wrapper's set counts are the child's total counts (`textCnt`, `linkCnt`).
  When all the child's words also lie in its own set (for example a
  paragraph without children), the two scores are equal. The Python code may
  then return the child alone where the model returns the wrapper.
- The candidate set of the Python code is built before `preprocess`, so it
  also holds stripped nodes with key 0. The model compares only the live
  nodes, and proves that the winner's key is at least 0.
- The AttributeError that `elements.textCnt` would raise at
  coreex/coreex.py:120 is a precondition of `ScoreAll` and `SetScores`
  (`Scorable`). `WellCountedScorable` proves that it never arises on the
  output of `create_subsets`.
- Iterating an lxml element while dropping its children
  (coreex/coreex.py:148-153) is modelled as a visit to every original child
  in order.
