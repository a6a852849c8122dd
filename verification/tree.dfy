/** The decision tree as a value: question nodes with a yes-child and a
    no-child, and guess nodes (leaves) holding an animal name. A position in
    the tree is the sequence of yes/no answers that leads to it. */
module Tree {

  datatype Node = Question(q: string, yes: Node, no: Node) | Guess(animal: string)

  /** The tree the game starts with. */
  const Seed: Node := Question("Does it swim?", Guess("a fish"), Guess("a bird"))

  /** The child reached from a question by answering `answer`. */
  function Follow(t: Node, answer: bool): Node
    requires t.Question?
  {
    if answer then t.yes else t.no
  }

  /** The animal names on the leaves, with repetitions. */
  function Leaves(t: Node): multiset<string>
  {
    match t
    case Guess(a) => multiset{a}
    case Question(_, y, n) => Leaves(y) + Leaves(n)
  }

  function QuestionCount(t: Node): nat
  {
    match t
    case Guess(_) => 0
    case Question(_, y, n) => 1 + QuestionCount(y) + QuestionCount(n)
  }

  /** Every stored question is non-empty and ends in '?'. */
  predicate WellFormed(t: Node)
  {
    match t
    case Guess(_) => true
    case Question(q, y, n) => |q| > 0 && q[|q| - 1] == '?' && WellFormed(y) && WellFormed(n)
  }

  /** The tree is strictly binary: it has one leaf more than it has questions. */
  lemma {:induction false} LeavesOutnumberQuestions(t: Node)
    ensures |Leaves(t)| == QuestionCount(t) + 1
  {
    match t
    case Guess(_) =>
    case Question(_, y, n) =>
      LeavesOutnumberQuestions(y);
      LeavesOutnumberQuestions(n);
  }

  /** `p` is a sequence of answers that can be followed from the root of `t`. */
  predicate IsPath(t: Node, p: seq<bool>)
  {
    p == [] || (t.Question? && IsPath(Follow(t, p[0]), p[1..]))
  }

  /** The subtree reached by following `p`. */
  function At(t: Node, p: seq<bool>): Node
    requires IsPath(t, p)
  {
    if p == [] then t else At(Follow(t, p[0]), p[1..])
  }

  /** `t` with the subtree at `p` replaced by `s`: the only slot that changes
      is the one `p` leads to, and `s` is found there afterwards. */
  function Replace(t: Node, p: seq<bool>, s: Node): (r: Node)
    requires IsPath(t, p)
    ensures IsPath(r, p) && At(r, p) == s
    ensures p != [] ==> r.Question? && r.q == t.q
  {
    if p == [] then s
    else if p[0] then Question(t.q, Replace(t.yes, p[1..], s), t.no)
    else Question(t.q, t.yes, Replace(t.no, p[1..], s))
  }

  /** Two paths that part at some answer: neither leads into the other's subtree. */
  predicate Apart(p: seq<bool>, p': seq<bool>)
  {
    p != [] && p' != [] && (p[0] != p'[0] || Apart(p[1..], p'[1..]))
  }

  /** Replacing one subtree leaves every subtree apart from it as it was. */
  lemma {:induction false} ReplaceElsewhere(t: Node, p: seq<bool>, s: Node, p': seq<bool>)
    requires IsPath(t, p) && IsPath(t, p') && Apart(p, p')
    ensures IsPath(Replace(t, p, s), p') && At(Replace(t, p, s), p') == At(t, p')
  {
    if p[0] == p'[0] {
      ReplaceElsewhere(Follow(t, p[0]), p[1..], s, p'[1..]);
    }
  }

  /** Every question on the way to the replaced slot keeps its text. */
  lemma {:induction false} ReplaceKeepsAncestors(t: Node, p: seq<bool>, s: Node, k: nat)
    requires IsPath(t, p) && k < |p|
    ensures IsPath(t, p[..k]) && IsPath(Replace(t, p, s), p[..k])
    ensures At(t, p[..k]).Question? && At(Replace(t, p, s), p[..k]).Question?
    ensures At(Replace(t, p, s), p[..k]).q == At(t, p[..k]).q
  {
    if k > 0 {
      assert p[..k][1..] == p[1..][..k - 1];
      ReplaceKeepsAncestors(Follow(t, p[0]), p[1..], s, k - 1);
    }
  }

  /** The leaves after a replacement are the old ones, less those of the
      replaced subtree, plus those of the new one. */
  lemma {:induction false} ReplaceLeaves(t: Node, p: seq<bool>, s: Node)
    requires IsPath(t, p)
    ensures Leaves(Replace(t, p, s)) + Leaves(At(t, p)) == Leaves(t) + Leaves(s)
  {
    if p != [] {
      var c := Follow(t, p[0]);
      ReplaceLeaves(c, p[1..], s);
      var lr, lc, lo, la := Leaves(Replace(c, p[1..], s)), Leaves(c), Leaves(Follow(t, !p[0])), Leaves(At(c, p[1..]));
      assert lr + la == lc + Leaves(s);
      assert Leaves(Replace(t, p, s)) == lr + lo;
      assert Leaves(t) == lc + lo;
      assert Leaves(At(t, p)) == la;
      assert lr + lo + la == lr + la + lo;
    }
  }

  /** Replacing a subtree by one with a single extra leaf adds exactly that leaf. */
  lemma {:induction false} ReplaceAddsLeaf(t: Node, p: seq<bool>, s: Node, animal: string)
    requires IsPath(t, p) && Leaves(s) == Leaves(At(t, p)) + multiset{animal}
    ensures Leaves(Replace(t, p, s)) == Leaves(t) + multiset{animal}
  {
    if p != [] {
      var extra := multiset{animal};
      if p[0] {
        ReplaceAddsLeaf(t.yes, p[1..], s, animal);
        UnionSwap(Leaves(t.yes), extra, Leaves(t.no));
      } else {
        ReplaceAddsLeaf(t.no, p[1..], s, animal);
        UnionAssoc(Leaves(t.yes), Leaves(t.no), extra);
      }
    }
  }

  /** Proof steps for ReplaceAddsLeaf: multiset union regrouped. */
  lemma UnionSwap<T>(a: multiset<T>, b: multiset<T>, c: multiset<T>)
    ensures (a + b) + c == (a + c) + b
  {
  }

  lemma UnionAssoc<T>(a: multiset<T>, b: multiset<T>, c: multiset<T>)
    ensures a + (b + c) == (a + b) + c
  {
  }

  /** The same count for the question nodes. */
  lemma {:induction false} ReplaceQuestionCount(t: Node, p: seq<bool>, s: Node)
    requires IsPath(t, p)
    ensures QuestionCount(Replace(t, p, s)) + QuestionCount(At(t, p)) == QuestionCount(t) + QuestionCount(s)
  {
    if p != [] {
      ReplaceQuestionCount(Follow(t, p[0]), p[1..], s);
    }
  }

  /** Replacing a subtree by a well-formed one keeps the tree well-formed. */
  lemma {:induction false} ReplaceWellFormed(t: Node, p: seq<bool>, s: Node)
    requires IsPath(t, p) && WellFormed(t) && WellFormed(s)
    ensures WellFormed(Replace(t, p, s))
  {
    if p != [] {
      ReplaceWellFormed(Follow(t, p[0]), p[1..], s);
    }
  }
}
