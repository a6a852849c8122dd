/** One round of the game as a function of the tree and of what the user
    types: the walk down the tree by yes/no answers, the guess at the leaf
    reached and, on a wrong guess, the growth of the tree. The tree returned
    is the old one with the guessed leaf's slot rebuilt along the path walked;
    `Engine` performs the same round by updating question nodes in place. */
module Play {
  import opened Text
  import opened Tree
  import opened Console

  /** How a round ends: the guess was right, the tree learned a new animal,
      or an IndexError ended the program. */
  datatype Status = Guessed | Learned | Crashed

  datatype Outcome = Outcome(status: Status, tree: Node, io: Io)

  /** The answer that a typed line stands for. */
  function Answer(line: string): Result<bool>
  {
    IsAffirmative(LowerStripped(line))
  }

  /** Print a prompt and read a yes/no answer. */
  function AskYesNo(prompt: string, io: Io): (r: (Result<bool>, Io))
    ensures r.0 == Answer(Typed(io, 0))
    ensures Advances(io, r.1) && r.1.output == io.output + [prompt]
    ensures forall k: nat :: Typed(r.1, k) == Typed(io, k + 1)
  {
    var (line, io1) := Prompt(io, prompt);
    (Answer(line), io1)
  }

  /** make_g_node(): ask which animal the user was thinking of. */
  function MakeGNode(io: Io): (r: (Node, Io))
    ensures r.0 == Guess(LowerStripped(Typed(io, 0)))
    ensures Advances(io, r.1)
    ensures forall k: nat :: Typed(r.1, k) == Typed(io, k + 1)
  {
    var (line, io1) := Prompt(io, "What animal were you thinking of? ");
    (Guess(LowerStripped(line)), io1)
  }

  /** make_q_node_with_q_only(): ask for a question telling the two animals apart. */
  function MakeQuestion(correct: string, incorrect: string, io: Io): (r: (Result<string>, Io))
    ensures r.0 == GetQuestion(Typed(io, 0))
    ensures Advances(io, r.1)
    ensures forall k: nat :: Typed(r.1, k) == Typed(io, k + 1)
  {
    var prompt := "Please type a yes-or-no question that would distinguish " + correct + " from " + incorrect + ":";
    var (line, io1) := Prompt(io, prompt);
    (GetQuestion(line), io1)
  }

  /** What replaces a wrongly guessed leaf: a question over two guesses, one
      of which is that leaf. */
  predicate Grows(leaf: Node, s: Node)
  {
    s.Question? && s.yes.Guess? && s.no.Guess? && (s.yes == leaf || s.no == leaf)
  }

  /** attach_g_nodes(): complete the new question node. Answering the new
      question the way the user answered it for the new animal leads to the
      new animal; the other answer leads to the old guess. */
  function AttachGNodes(q: string, incorrect: Node, correct: Node, io: Io): (r: (Result<Node>, Io))
    requires incorrect.Guess? && correct.Guess?
    ensures r.0.IndexError? <==> Answer(Typed(io, 0)).IndexError?
    ensures r.0.Ok? ==>
      r.0.value.Question? && r.0.value.q == q &&
      Follow(r.0.value, Answer(Typed(io, 0)).value) == correct &&
      Follow(r.0.value, !Answer(Typed(io, 0)).value) == incorrect
    ensures r.0.Ok? ==> Grows(incorrect, r.0.value)
    ensures Advances(io, r.1)
    ensures forall k: nat :: Typed(r.1, k) == Typed(io, k + 1)
  {
    var (answer, io1) := AskYesNo("For " + correct.animal + ", what is the answer?", io);
    match answer
    case IndexError => (IndexError, io1)
    case Ok(yes) =>
      (Ok(if yes then Question(q, correct, incorrect) else Question(q, incorrect, correct)), io1)
  }

  /** make_new_q_node(): after a wrong guess, read the new animal, the
      question telling it apart and the new animal's answer to it, and build
      a well-formed question over the old guess and the new animal (see
      NewQNodeLayout and NewQNodeGrows); a blank question or answer raises
      IndexError. */
  function MakeNewQNode(incorrect: Node, io: Io): (r: (Result<Node>, Io))
    requires incorrect.Guess?
    ensures Advances(io, r.1)
  {
    var (correct, io1) := MakeGNode(io);
    var (q, io2) := MakeQuestion(correct.animal, incorrect.animal, io1);
    AdvancesTransitive(io, io1, io2);
    match q
    case IndexError => (IndexError, io2)
    case Ok(qs) =>
      var r := AttachGNodes(qs, incorrect, correct, io2);
      AdvancesTransitive(io, io2, r.1);
      r
  }

  /** The node make_new_q_node() builds from the three lines typed after a
      wrong guess: the first names the new animal, the second is the
      question, and the third is the new animal's answer to it, which
      decides on which side the new animal goes. A node is built exactly
      when neither the question nor the answer is blank. */
  lemma NewQNodeLayout(incorrect: Node, io: Io)
    requires incorrect.Guess?
    ensures var r, q, a := MakeNewQNode(incorrect, io).0, GetQuestion(Typed(io, 1)), Answer(Typed(io, 2));
      (r.Ok? <==> q.Ok? && a.Ok?) &&
      (r.Ok? ==>
         r.value.Question? && r.value.q == q.value &&
         Follow(r.value, a.value) == Guess(LowerStripped(Typed(io, 0))) &&
         Follow(r.value, !a.value) == incorrect)
  {
    var (correct, io1) := MakeGNode(io);
    var (q, io2) := MakeQuestion(correct.animal, incorrect.animal, io1);
    assert Typed(io1, 0) == Typed(io, 1) && Typed(io2, 0) == Typed(io1, 1) == Typed(io, 2);
    if q.Ok? {
      assert MakeNewQNode(incorrect, io) == AttachGNodes(q.value, incorrect, correct, io2);
    }
  }

  /** The node built replaces the old guess by a well-formed question over
      it and one new guess. */
  lemma NewQNodeGrows(incorrect: Node, io: Io)
    requires incorrect.Guess?
    ensures var r := MakeNewQNode(incorrect, io).0;
      r.Ok? ==> Grows(incorrect, r.value) && WellFormed(r.value)
  {
    var (correct, io1) := MakeGNode(io);
    var (q, io2) := MakeQuestion(correct.animal, incorrect.animal, io1);
    if q.Ok? {
      var r := AttachGNodes(q.value, incorrect, correct, io2);
      assert MakeNewQNode(incorrect, io) == r;
      if r.0.Ok? {
        QuestionOverGuesses(r.0.value);
      }
    }
  }

  /** A question over two guesses is well-formed when its text is. */
  lemma QuestionOverGuesses(s: Node)
    requires s.Question? && s.yes.Guess? && s.no.Guess? && |s.q| > 0 && s.q[|s.q| - 1] == '?'
    ensures WellFormed(s)
  {
  }

  /** play_g_node(): offer the guess at a leaf. A 'y' answer keeps the leaf;
      any other answer grows the tree there; a blank answer, or a blank line
      where the growth needs one, crashes and keeps the leaf. */
  function PlayGNode(g: Node, io: Io): (r: Outcome)
    requires g.Guess?
    ensures r.status == Guessed <==> Answer(Typed(io, 0)) == Ok(true)
    ensures r.status != Learned ==> r.tree == g
    ensures r.status == Learned ==> Grows(g, r.tree) && WellFormed(r.tree)
    ensures Answer(Typed(io, 0)).IndexError? ==>
      r.status == Crashed && r.io.output == io.output + ["Is it " + g.animal + "?"]
    ensures r.status == Guessed ==>
      r.io.output == io.output + ["Is it " + g.animal + "?", "Great! Try another animal!"]
    ensures Advances(io, r.io)
  {
    var (answer, io1) := AskYesNo("Is it " + g.animal + "?", io);
    match answer
    case IndexError => Outcome(Crashed, g, io1)
    case Ok(true) => Outcome(Guessed, g, Emit(io1, "Great! Try another animal!"))
    case Ok(false) =>
      var (n, io2) := MakeNewQNode(g, io1);
      AdvancesTransitive(io, io1, io2);
      NewQNodeGrows(g, io1);
      match n
      case IndexError => Outcome(Crashed, g, io2)
      case Ok(s) => Outcome(Learned, s, io2)
  }

  /** play_node(): continue at a child, a question or a guess. A round that
      does not learn leaves the subtree as it was; a question keeps its text. */
  function PlayNode(t: Node, io: Io): (r: Outcome)
    ensures r.status != Learned ==> r.tree == t
    ensures t.Question? ==> r.tree.Question? && r.tree.q == t.q
    ensures Advances(io, r.io)
    decreases t, 1
  {
    match t
    case Question(_, _, _) => PlayQNode(t, io)
    case Guess(_) => PlayGNode(t, io)
  }

  /** play_q_node(): ask the question and continue down the branch the
      answer selects; only that branch can change. */
  function PlayQNode(t: Node, io: Io): (r: Outcome)
    requires t.Question?
    ensures r.status != Learned ==> r.tree == t
    ensures r.tree.Question? && r.tree.q == t.q
    ensures Advances(io, r.io)
    decreases t, 0
  {
    var (answer, io1) := AskYesNo(t.q, io);
    match answer
    case IndexError => Outcome(Crashed, t, io1)
    case Ok(b) =>
      var o := PlayNode(if b then t.yes else t.no, io1);
      AdvancesTransitive(io, io1, o.io);
      Outcome(o.status, if b then Question(t.q, o.tree, t.no) else Question(t.q, t.yes, o.tree), o.io)
  }

  /** play_game(): one round from the root, which is always a question. The
      root is never replaced: the tree after the round is rooted at a question
      with the same text, and is the same tree unless the round learned. */
  function PlayGame(root: Node, io: Io): (r: Outcome)
    requires root.Question?
    ensures r.tree.Question? && r.tree.q == root.q
    ensures r.status != Learned ==> r.tree == root
  {
    PlayQNode(root, io)
  }

  /** The terminal after the questions on the path `p` have been asked and
      answered, one typed line each. */
  function After(t: Node, p: seq<bool>, io: Io): Io
    requires IsPath(t, p)
    decreases |p|
  {
    if p == [] then io else After(Follow(t, p[0]), p[1..], AskYesNo(t.q, io).1)
  }

  /** The walk follows the typed answers: when the first |p| lines answer the
      questions along `p` and `p` leads to a guess, the round offers that
      guess after those questions, and whatever happens there happens in
      that slot of the tree and nowhere else. */
  lemma {:induction false} Walk(t: Node, p: seq<bool>, io: Io)
    requires IsPath(t, p) && At(t, p).Guess?
    requires forall i :: 0 <= i < |p| ==> Answer(Typed(io, i)) == Ok(p[i])
    ensures var o, g := PlayNode(t, io), PlayGNode(At(t, p), After(t, p, io));
      o.status == g.status && o.io == g.io && o.tree == Replace(t, p, g.tree)
    decreases |p|
  {
    if p != [] {
      var (a, io1) := AskYesNo(t.q, io);
      assert Answer(Typed(io, 0)) == Ok(p[0]);
      forall i | 0 <= i < |p[1..]| ensures Answer(Typed(io1, i)) == Ok(p[1..][i]) {
        assert Typed(io1, i) == Typed(io, i + 1);
      }
      Walk(Follow(t, p[0]), p[1..], io1);
    }
  }

  /** A round that does not crash reaches a guess along the path its typed
      answers select. */
  lemma {:induction false} WalkReachesLeaf(t: Node, io: Io) returns (p: seq<bool>)
    requires PlayNode(t, io).status != Crashed
    ensures IsPath(t, p) && At(t, p).Guess?
    ensures forall i :: 0 <= i < |p| ==> Answer(Typed(io, i)) == Ok(p[i])
    decreases t
  {
    match t
    case Guess(_) =>
      p := [];
    case Question(q, y, n) =>
      var (a, io1) := AskYesNo(q, io);
      assert a.Ok?;
      var p' := WalkReachesLeaf(Follow(t, a.value), io1);
      p := [a.value] + p';
      assert p[1..] == p';
      forall i | 0 <= i < |p| ensures Answer(Typed(io, i)) == Ok(p[i]) {
        if i > 0 {
          assert Typed(io1, i - 1) == Typed(io, i);
        }
      }
  }

  /** A round that does not crash offers the guess its typed answers lead
      to, and changes the tree only in that guess's slot: to the question
      PlayGNode builds there if the guess was wrong, and not at all if it was
      right. */
  lemma RoundAtWalkedLeaf(t: Node, io: Io) returns (p: seq<bool>)
    requires PlayNode(t, io).status != Crashed
    ensures IsPath(t, p) && At(t, p).Guess?
    ensures forall i :: 0 <= i < |p| ==> Answer(Typed(io, i)) == Ok(p[i])
    ensures var o, g := PlayNode(t, io), PlayGNode(At(t, p), After(t, p, io));
      o.status == g.status && o.io == g.io && o.tree == Replace(t, p, g.tree)
  {
    p := WalkReachesLeaf(t, io);
    Walk(t, p, io);
  }

  /** A wrong guess makes the round read the new animal, the question and
      its answer from the next three lines: the round learns exactly when
      neither the question nor the answer is blank, and the leaf becomes the
      question typed, leading by the typed answer to the typed animal and by
      the other answer to the old guess. */
  lemma WrongGuessGrows(g: Node, io: Io)
    requires g.Guess? && Answer(Typed(io, 0)) == Ok(false)
    ensures var r, q, a := PlayGNode(g, io), GetQuestion(Typed(io, 2)), Answer(Typed(io, 3));
      (r.status == Learned <==> q.Ok? && a.Ok?) &&
      (r.status == Learned ==>
         r.tree.Question? && r.tree.q == q.value &&
         Follow(r.tree, a.value) == Guess(LowerStripped(Typed(io, 1))) &&
         Follow(r.tree, !a.value) == g)
  {
    var (answer, io1) := AskYesNo("Is it " + g.animal + "?", io);
    assert Typed(io1, 0) == Typed(io, 1) && Typed(io1, 1) == Typed(io, 2) && Typed(io1, 2) == Typed(io, 3);
    NewQNodeLayout(g, io1);
  }

  /** A round that learns replaces exactly one leaf by a well-formed
      question over that leaf and one new guess; every other slot of the tree
      is as before (see Tree.ReplaceElsewhere). That the leaf is the one the
      typed answers lead to is RoundAtWalkedLeaf. */
  lemma {:induction false} LearnedReplacesOneLeaf(t: Node, io: Io)
    ensures var o := PlayNode(t, io);
      o.status == Learned ==>
        exists p :: IsPath(t, p) && At(t, p).Guess? && IsPath(o.tree, p) &&
          Grows(At(t, p), At(o.tree, p)) && WellFormed(At(o.tree, p)) &&
          o.tree == Replace(t, p, At(o.tree, p))
    decreases t
  {
    var o := PlayNode(t, io);
    if o.status == Learned {
      match t
      case Guess(_) =>
        assert IsPath(t, []) && At(t, []) == t && Replace(t, [], o.tree) == o.tree;
      case Question(q, y, n) =>
        assert o == PlayQNode(t, io);
        var (answer, io1) := AskYesNo(q, io);
        assert answer.Ok?;
        var b := answer.value;
        var c := Follow(t, b);
        var oc := PlayNode(c, io1);
        LearnedReplacesOneLeaf(c, io1);
        var p' :| IsPath(c, p') && At(c, p').Guess? && IsPath(oc.tree, p') &&
                  Grows(At(c, p'), At(oc.tree, p')) && WellFormed(At(oc.tree, p')) &&
                  oc.tree == Replace(c, p', At(oc.tree, p'));
        var p := [b] + p';
        assert p[0] == b && p[1..] == p';
        assert o.tree == if b then Question(q, oc.tree, n) else Question(q, y, oc.tree);
        assert Follow(o.tree, b) == oc.tree;
        assert IsPath(t, p) && At(t, p) == At(c, p');
        assert IsPath(o.tree, p) && At(o.tree, p) == At(oc.tree, p');
        assert o.tree == Replace(t, p, At(o.tree, p));
    }
  }

  /** A round that learns adds exactly one leaf and one question, and loses
      no leaf. */
  lemma LearnedAddsOneLeaf(t: Node, io: Io)
    ensures var o := PlayNode(t, io);
      o.status == Learned ==>
        QuestionCount(o.tree) == QuestionCount(t) + 1 &&
        exists animal :: Leaves(o.tree) == Leaves(t) + multiset{animal}
  {
    var o := PlayNode(t, io);
    if o.status == Learned {
      LearnedReplacesOneLeaf(t, io);
      var p :| IsPath(t, p) && At(t, p).Guess? && IsPath(o.tree, p) &&
               Grows(At(t, p), At(o.tree, p)) && WellFormed(At(o.tree, p)) &&
               o.tree == Replace(t, p, At(o.tree, p));
      var animal := GrowsAddsLeaf(At(t, p), At(o.tree, p));
      ReplaceAddsLeaf(t, p, At(o.tree, p), animal);
      ReplaceQuestionCount(t, p, At(o.tree, p));
    }
  }

  /** Growing a leaf adds one question and one leaf, the new animal. */
  lemma GrowsAddsLeaf(leaf: Node, s: Node) returns (animal: string)
    requires leaf.Guess? && Grows(leaf, s)
    ensures Leaves(s) == Leaves(leaf) + multiset{animal} && QuestionCount(s) == QuestionCount(leaf) + 1
  {
    animal := if s.yes == leaf then s.no.animal else s.yes.animal;
  }

  /** Every question stays non-empty and ends in '?' across rounds. */
  lemma PlayKeepsWellFormed(t: Node, io: Io)
    requires WellFormed(t)
    ensures WellFormed(PlayNode(t, io).tree)
  {
    var o := PlayNode(t, io);
    if o.status == Learned {
      LearnedReplacesOneLeaf(t, io);
      var p :| IsPath(t, p) && At(t, p).Guess? && IsPath(o.tree, p) &&
               Grows(At(t, p), At(o.tree, p)) && WellFormed(At(o.tree, p)) &&
               o.tree == Replace(t, p, At(o.tree, p));
      ReplaceWellFormed(t, p, At(o.tree, p));
    }
  }

  /** A round on the seed tree in which the user's animal swims and is a fish. */
  lemma SeedRoundGuessed()
    ensures PlayGame(Seed, Io(["yes", "yes"], [])) ==
      Outcome(Guessed, Seed, Io([], ["Does it swim?", "Is it a fish?", "Great! Try another animal!"]))
  {
    var io1 := Io(["yes"], ["Does it swim?"]);
    var io2 := Io([], ["Does it swim?", "Is it a fish?"]);
    AnswerYes();
    assert AskYesNo("Does it swim?", Io(["yes", "yes"], [])) == (Ok(true), io1);
    FishPrompt();
    assert io1.output + ["Is it a fish?"] == io2.output;
    assert AskYesNo("Is it a fish?", io1) == (Ok(true), io2);
    assert io2.output + ["Great! Try another animal!"] == ["Does it swim?", "Is it a fish?", "Great! Try another animal!"];
  }

  lemma AnswerYes()
    ensures Answer("yes") == Ok(true)
  {
    assert Strip("yes") == "yes";
  }

  lemma AnswerNo()
    ensures Answer("no") == Ok(false)
  {
    assert Strip("no") == "no";
  }

  /** Proof step for SeedRoundGuessed: the prompt offering the fish. */
  lemma FishPrompt()
    ensures "Is it " + "a fish" + "?" == "Is it a fish?"
  {
  }

  /** A round on the seed tree in which the user's animal is a dog: the bird
      guessed at the no-branch is replaced by a question telling the dog from
      the bird. */
  lemma SeedRoundLearnsDog(io: Io)
    requires Typed(io, 0) == "no" && Typed(io, 1) == "no" && Typed(io, 2) == "a dog" &&
             Typed(io, 3) == "Does it bark?" && Typed(io, 4) == "yes"
    ensures var o := PlayGame(Seed, io);
      o.status == Learned &&
      o.tree == Question("Does it swim?", Guess("a fish"),
                         Question("Does it bark?", Guess("a dog"), Guess("a bird")))
  {
    var (a, io') := AskYesNo("Does it swim?", io);
    AnswerNo();
    assert Typed(io', 0) == "no" && Typed(io', 1) == "a dog" && Typed(io', 2) == "Does it bark?" && Typed(io', 3) == "yes";
    BirdReplacedByDog(io');
    var o := PlayNode(Guess("a bird"), io');
    assert PlayGame(Seed, io) == Outcome(o.status, Question("Does it swim?", Guess("a fish"), o.tree), o.io);
  }

  /** The guess "a bird" refused, then "a dog", "Does it bark?" and "yes" typed. */
  lemma BirdReplacedByDog(io: Io)
    requires Typed(io, 0) == "no" && Typed(io, 1) == "a dog" && Typed(io, 2) == "Does it bark?" && Typed(io, 3) == "yes"
    ensures var o := PlayGNode(Guess("a bird"), io);
      o.status == Learned && o.tree == Question("Does it bark?", Guess("a dog"), Guess("a bird"))
  {
    var (a, io') := AskYesNo("Is it " + "a bird" + "?", io);
    AnswerNo();
    AnswerYes();
    NewAnimalDog();
    QuestionBark();
    assert a == Ok(false);
    assert Typed(io', 0) == "a dog" && Typed(io', 1) == "Does it bark?" && Typed(io', 2) == "yes";
  }

  lemma NewAnimalDog()
    ensures LowerStripped("a dog") == "a dog"
  {
    assert Strip("a dog") == "a dog";
    assert Lower("a dog") == "a dog";
  }

  lemma QuestionBark()
    ensures GetQuestion("Does it bark?") == Ok("Does it bark?")
  {
    assert Strip("Does it bark?") == "Does it bark?";
    CapitalizedFixed("Does it bark?");
  }
}
