/** The tree as the program keeps it in memory. A question node is an object
    whose question never changes and whose yes and no slots are reassigned in
    place when the tree grows; a guess is a value held in a slot, since a
    guess is never changed once made. Each question node carries, as ghost
    state, the set of nodes below it (`Repr`) and the tree it stands for
    (`Model`); every operation is proved to act on `Model` as the functions of
    `Play` and `Trace` say. */
module Engine {
  import opened Text
  import opened Tree
  import opened Console
  import Play
  import Trace

  /** What a yes/no slot holds: nothing yet (Python's None, only between
      make_q_node_with_q_only and attach_g_nodes), a guess, or a question. */
  datatype Slot = Unset | Leaf(animal: string) | Branch(node: QNode)

  /** The tree a filled slot stands for. */
  ghost function SlotModel(s: Slot): Node
    requires !s.Unset?
    reads if s.Branch? then {s.node} else {}
  {
    match s
    case Leaf(a) => Guess(a)
    case Branch(n) => n.Model
  }

  /** A question node. */
  class QNode {
    const question: string
    var yes: Slot
    var no: Slot
    ghost var Repr: set<object>
    ghost var Model: Node

    /** Both slots are filled, the nodes below form a tree (no node reached
        twice, no cycle) and `Model` is the tree this node roots. */
    ghost predicate Valid()
      reads this, Repr
      decreases Repr
    {
      this in Repr &&
      !yes.Unset? && !no.Unset? &&
      (yes.Branch? ==>
         yes.node in Repr && yes.node.Repr <= Repr && this !in yes.node.Repr && yes.node.Valid()) &&
      (no.Branch? ==>
         no.node in Repr && no.node.Repr <= Repr && this !in no.node.Repr && no.node.Valid()) &&
      (yes.Branch? && no.Branch? ==> yes.node.Repr !! no.node.Repr) &&
      Model == Question(question, SlotModel(yes), SlotModel(no))
    }

    /** A question node whose slots are not set yet. */
    constructor (question: string)
      ensures this.question == question && yes == Unset && no == Unset && Repr == {this}
    {
      this.question := question;
      yes, no := Unset, Unset;
      Repr := {this};
    }

    /** The slot on the path followed, and the other one. */
    function Taken(followedYes: bool): Slot
      reads this
    {
      if followedYes then yes else no
    }

    function Other(followedYes: bool): Slot
      reads this
    {
      if followedYes then no else yes
    }

    /** The question node in the slot on the path followed is new or has
        changed below itself: take its nodes and its tree into this node's
        ghost state. The other slot is as it was. */
    ghost method Adopt(followedYes: bool)
      requires this in Repr && !yes.Unset? && !no.Unset?
      requires var s, t := Taken(followedYes), Other(followedYes);
        s.Branch? && s.node.Valid() && this !in s.node.Repr &&
        (t.Branch? ==>
           t.node in Repr && t.node.Repr <= Repr && this !in t.node.Repr && t.node.Valid() &&
           t.node.Repr !! s.node.Repr)
      requires Model.Question? && Model.q == question &&
        (if followedYes then Model.no == SlotModel(no) else Model.yes == SlotModel(yes))
      modifies this`Repr, this`Model
      ensures Valid() && Repr == old(Repr) + Taken(followedYes).node.Repr
      ensures var m := Taken(followedYes).node.Model;
        Model == if followedYes then Question(question, m, old(Model).no) else Question(question, old(Model).yes, m)
    {
      var n := Taken(followedYes).node;
      Repr := Repr + n.Repr;
      Model := if followedYes then Question(question, n.Model, Model.no) else Question(question, Model.yes, n.Model);
    }

    /** Hang a complete question node, with no nodes in common with this one,
        in the slot on the path followed, which held a guess. */
    method Hang(n: QNode, followedYes: bool)
      requires Valid() && Taken(followedYes).Leaf? && n.Valid() && n.Repr !! Repr
      modifies this
      ensures Valid() && Taken(followedYes) == Branch(n) && Other(followedYes) == old(Other(followedYes))
      ensures Repr == old(Repr) + n.Repr
      ensures Model == if followedYes then Question(question, n.Model, old(Model).no)
                       else Question(question, old(Model).yes, n.Model)
    {
      if followedYes {
        yes := Branch(n);
      } else {
        no := Branch(n);
      }
      Adopt(followedYes);
    }
  }

  /** make_q_node_with_q_only(): read the question that tells the new animal
      from the wrongly guessed one, and build a node with unset slots; a blank
      line raises IndexError (null here) before anything is built. */
  method MakeQNodeWithQOnly(correct: string, incorrect: string, io: Io) returns (node: QNode?, io': Io)
    ensures var r := Play.MakeQuestion(correct, incorrect, io);
      io' == r.1 && (node == null <==> r.0.IndexError?) &&
      (node != null ==>
         fresh(node) && node.question == r.0.value && node.yes == Unset && node.no == Unset &&
         node.Repr == {node})
  {
    var r := Play.MakeQuestion(correct, incorrect, io);
    io' := r.1;
    match r.0
    case IndexError => node := null;
    case Ok(q) => node := new QNode(q);
  }

  /** attach_g_nodes(): fill the new node's slots with the new animal and the
      old guess, as the user's answer for the new animal says. A blank answer
      raises IndexError and leaves the slots unset. */
  method AttachGNodes(newQ: QNode, incorrect: string, correct: string, io: Io) returns (ok: bool, io': Io)
    requires newQ.yes == Unset && newQ.no == Unset && newQ.Repr == {newQ}
    modifies newQ
    ensures var r := Play.AttachGNodes(newQ.question, Guess(incorrect), Guess(correct), io);
      io' == r.1 && ok == r.0.Ok? &&
      (ok ==> newQ.Valid() && newQ.Repr == {newQ} && newQ.Model == r.0.value)
    ensures !ok ==> unchanged(newQ)
  {
    var answer := Play.AskYesNo("For " + correct + ", what is the answer?", io);
    io' := answer.1;
    match answer.0
    case IndexError => ok := false;
    case Ok(isYes) =>
      if isYes {
        newQ.yes := Leaf(correct);
        newQ.no := Leaf(incorrect);
        newQ.Model := Question(newQ.question, Guess(correct), Guess(incorrect));
      } else {
        newQ.yes := Leaf(incorrect);
        newQ.no := Leaf(correct);
        newQ.Model := Question(newQ.question, Guess(incorrect), Guess(correct));
      }
      ok := true;
  }

  /** make_new_q_node(): read the new animal, then build and complete the
      question node that will take the wrong guess's place. */
  method MakeNewQNode(incorrect: string, io: Io) returns (node: QNode?, io': Io)
    ensures node != null ==> fresh(node) && node.Valid() && node.Repr == {node}
    ensures var r := Play.MakeNewQNode(Guess(incorrect), io);
      io' == r.1 && (node == null <==> r.0.IndexError?) && (node != null ==> node.Model == r.0.value)
  {
    var g := Play.MakeGNode(io);
    var q;
    q, io' := MakeQNodeWithQOnly(g.0.animal, incorrect, g.1);
    if q == null {
      node := null;
    } else {
      var ok;
      ok, io' := AttachGNodes(q, incorrect, g.0.animal, io');
      node := if ok then q else null;
    }
  }

  /** insert_new_yes_branch_q_node(): replace the guess in the parent's yes
      slot by a new question node. Only that slot changes: the no slot and
      the question stay, and a crash while reading changes nothing. */
  method InsertNewYesBranchQNode(parent: QNode, g: string, io: Io) returns (ok: bool, io': Io)
    requires parent.Valid() && parent.yes == Leaf(g)
    modifies parent
    ensures parent.Valid() && fresh(parent.Repr - old(parent.Repr))
    ensures parent.no == old(parent.no)
    ensures !ok ==> unchanged(parent)
    ensures var r := Play.MakeNewQNode(Guess(g), io);
      io' == r.1 && ok == r.0.Ok? &&
      (ok ==> parent.Model == Question(parent.question, r.0.value, old(parent.Model).no))
  {
    var n;
    n, io' := MakeNewQNode(g, io);
    if n == null {
      ok := false;
    } else {
      assert n.Repr !! parent.Repr;
      parent.Hang(n, true);
      assert parent.Repr == old(parent.Repr) + {n};
      ok := true;
    }
  }

  /** insert_new_no_branch_q_node(): the same for the no slot. */
  method InsertNewNoBranchQNode(parent: QNode, g: string, io: Io) returns (ok: bool, io': Io)
    requires parent.Valid() && parent.no == Leaf(g)
    modifies parent
    ensures parent.Valid() && fresh(parent.Repr - old(parent.Repr))
    ensures parent.yes == old(parent.yes)
    ensures !ok ==> unchanged(parent)
    ensures var r := Play.MakeNewQNode(Guess(g), io);
      io' == r.1 && ok == r.0.Ok? &&
      (ok ==> parent.Model == Question(parent.question, old(parent.Model).yes, r.0.value))
  {
    var n;
    n, io' := MakeNewQNode(g, io);
    if n == null {
      ok := false;
    } else {
      assert n.Repr !! parent.Repr;
      parent.Hang(n, false);
      assert parent.Repr == old(parent.Repr) + {n};
      ok := true;
    }
  }

  /** play_g_node(): offer the guess held in the parent's slot on the path
      followed; on a wrong guess grow the tree in that slot. Only the parent
      changes, and only in that slot. */
  method PlayGNode(parent: QNode, g: string, followedYes: bool, io: Io) returns (status: Play.Status, io': Io)
    requires parent.Valid() && (if followedYes then parent.yes else parent.no) == Leaf(g)
    modifies parent
    ensures parent.Valid() && fresh(parent.Repr - old(parent.Repr))
    ensures followedYes ==> parent.no == old(parent.no)
    ensures !followedYes ==> parent.yes == old(parent.yes)
    ensures var o := Play.PlayGNode(Guess(g), io);
      status == o.status && io' == o.io &&
      parent.Model == if followedYes then Question(parent.question, o.tree, old(parent.Model).no)
                      else Question(parent.question, old(parent.Model).yes, o.tree)
  {
    var answer := Play.AskYesNo("Is it " + g + "?", io);
    match answer.0
    case IndexError =>
      status, io' := Play.Crashed, answer.1;
    case Ok(isYes) =>
      if isYes {
        status, io' := Play.Guessed, Emit(answer.1, "Great! Try another animal!");
      } else {
        var ok;
        if followedYes {
          ok, io' := InsertNewYesBranchQNode(parent, g, answer.1);
        } else {
          ok, io' := InsertNewNoBranchQNode(parent, g, answer.1);
        }
        status := if ok then Play.Learned else Play.Crashed;
      }
  }

  /** play_node(): continue at the child in the parent's slot on the path
      followed: a question node is played in place, a guess is offered. */
  method PlayNode(parent: QNode, child: Slot, followedYes: bool, io: Io) returns (status: Play.Status, io': Io)
    requires parent.Valid() && child == (if followedYes then parent.yes else parent.no)
    modifies parent.Repr
    ensures parent.Valid() && fresh(parent.Repr - old(parent.Repr))
    ensures followedYes ==> parent.no == old(parent.no)
    ensures !followedYes ==> parent.yes == old(parent.yes)
    ensures var o := Play.PlayNode(Follow(old(parent.Model), followedYes), io);
      status == o.status && io' == o.io &&
      parent.Model == if followedYes then Question(parent.question, o.tree, old(parent.Model).no)
                      else Question(parent.question, old(parent.Model).yes, o.tree)
    decreases parent.Repr, 0
  {
    if child.Branch? {
      var c := child.node;
      status, io' := PlayQNode(c, io);
      parent.Adopt(followedYes);
    } else {
      status, io' := PlayGNode(parent, child.animal, followedYes, io);
    }
  }

  /** play_q_node(): ask the node's question and continue down the branch the
      answer selects. */
  method PlayQNode(node: QNode, io: Io) returns (status: Play.Status, io': Io)
    requires node.Valid()
    modifies node.Repr
    ensures node.Valid() && fresh(node.Repr - old(node.Repr))
    ensures var o := Play.PlayQNode(old(node.Model), io);
      status == o.status && io' == o.io && node.Model == o.tree
    decreases node.Repr, 1
  {
    var answer := Play.AskYesNo(node.question, io);
    match answer.0
    case IndexError =>
      status, io' := Play.Crashed, answer.1;
    case Ok(b) =>
      status, io' := PlayNode(node, if b then node.yes else node.no, b, answer.1);
  }

  /** play_game(): one round from the root question. */
  method PlayGame(root: QNode, io: Io) returns (status: Play.Status, io': Io)
    requires root.Valid()
    modifies root.Repr
    ensures root.Valid() && fresh(root.Repr - old(root.Repr))
    ensures var o := Play.PlayGame(old(root.Model), io);
      status == o.status && io' == o.io && root.Model == o.tree
  {
    status, io' := PlayQNode(root, io);
  }

  /** print_game_tree(): the lines printed for the tree below `node`. */
  function PrintGameTree(node: QNode, level: nat): (lines: seq<string>)
    requires node.Valid()
    reads node, node.Repr
    ensures lines == Trace.PrintGameTree(node.Model, level)
    decreases node.Repr
  {
    var yesLines :=
      if node.yes.Branch? then PrintGameTree(node.yes.node, level + 1)
      else [Trace.GuessLine(node.yes.animal, level + 1)];
    var noLines :=
      if node.no.Branch? then PrintGameTree(node.no.node, level + 1)
      else [Trace.GuessLine(node.no.animal, level + 1)];
    [Trace.QuestionLine(node.question, level, true)] + yesLines +
    [Trace.QuestionLine(node.question, level, false)] + noLines
  }

  /** The game's state: the root question node, built once with the seed
      tree and never replaced; rounds only change what lies below it. Every
      question in the tree is non-empty, so a question node is always told
      apart from a guess. */
  class Game {
    const root: QNode

    ghost predicate Valid()
      reads this, root, root.Repr
    {
      root.Valid() && root.question == "Does it swim?" && WellFormed(root.Model)
    }

    /** The seed tree. */
    constructor ()
      ensures Valid() && fresh(root.Repr) && root.Model == Seed
    {
      var r := new QNode("Does it swim?");
      r.yes, r.no := Leaf("a fish"), Leaf("a bird");
      r.Model := Seed;
      root := r;
    }

    /** One round of play on the game's tree: the tree becomes the one
        Play.PlayGame computes, and stays well-formed. */
    method PlayRound(io: Io) returns (status: Play.Status, io': Io)
      requires Valid()
      modifies root.Repr
      ensures Valid() && fresh(root.Repr - old(root.Repr))
      ensures var o := Play.PlayGame(old(root.Model), io);
        status == o.status && io' == o.io && root.Model == o.tree
    {
      ghost var t := root.Model;
      Play.PlayKeepsWellFormed(t, io);
      assert Play.PlayNode(t, io) == Play.PlayGame(t, io);
      status, io' := PlayGame(root, io);
    }

    /** The game tree as printed when the user asks for it. */
    function PrintTree(): (lines: seq<string>)
      requires Valid()
      reads this, root, root.Repr
      ensures lines == Trace.PrintGameTree(root.Model, 1)
    {
      PrintGameTree(root, 1)
    }
  }
}
