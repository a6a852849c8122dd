/** The printed game tree: a pre-order listing in which every question is
    shown once before its yes-subtree and once before its no-subtree, every
    guess once, each line indented three spaces per level. The listing loses
    nothing: `ParseTree` reads the tree back from it. */
module Trace {
  import opened Tree

  /** get_indent_str(): three spaces per level. */
  function Indent(level: nat): (r: string)
    ensures |r| == 3 * level && forall i :: 0 <= i < |r| ==> r[i] == ' '
  {
    seq(3 * level, _ => ' ')
  }

  /** The line printed before the yes-subtree (`yes`) or the no-subtree of a question. */
  function QuestionLine(q: string, level: nat, yes: bool): string
  {
    Indent(level) + "Question: " + q + (if yes then " -> yes:" else " -> no:")
  }

  /** The line printed for a guess. */
  function GuessLine(animal: string, level: nat): string
  {
    Indent(level) + "Guess: " + animal
  }

  /** print_game_tree(): the lines printed for the subtree `t` at `level`. */
  function PrintGameTree(t: Node, level: nat): seq<string>
  {
    match t
    case Guess(a) => [GuessLine(a, level)]
    case Question(q, y, n) =>
      [QuestionLine(q, level, true)] + PrintGameTree(y, level + 1) +
      [QuestionLine(q, level, false)] + PrintGameTree(n, level + 1)
  }

  /** Two lines per question and one per guess. */
  lemma {:induction false} TraceLength(t: Node, level: nat)
    ensures |PrintGameTree(t, level)| == 2 * QuestionCount(t) + |Leaves(t)|
  {
    match t
    case Guess(_) =>
    case Question(_, y, n) =>
      TraceLength(y, level + 1);
      TraceLength(n, level + 1);
  }

  predicate IsPrefix(p: string, s: string)
  {
    |p| <= |s| && s[..|p|] == p
  }

  /** Every line of a subtree printed at `level` starts with that level's
      indentation, so children are indented further than their parent. */
  lemma {:induction false} TraceIndented(t: Node, level: nat)
    ensures forall i :: 0 <= i < |PrintGameTree(t, level)| ==> IsPrefix(Indent(level), PrintGameTree(t, level)[i])
  {
    match t
    case Guess(a) =>
      assert GuessLine(a, level)[..3 * level] == Indent(level);
    case Question(q, y, n) =>
      TraceIndented(y, level + 1);
      TraceIndented(n, level + 1);
      var ty, tn := PrintGameTree(y, level + 1), PrintGameTree(n, level + 1);
      var lines := PrintGameTree(t, level);
      forall i | 0 <= i < |lines| ensures IsPrefix(Indent(level), lines[i]) {
        var line := lines[i];
        if i == 0 || i == |ty| + 1 {
          assert line == QuestionLine(q, level, i == 0);
          assert line[..3 * level] == Indent(level);
        } else {
          assert IsPrefix(Indent(level + 1), line);
          assert line[..3 * level] == Indent(level + 1)[..3 * level];
        }
      }
  }

  /** The printed seed tree. */
  lemma SeedTrace()
    ensures PrintGameTree(Seed, 1) == [
      "   Question: Does it swim? -> yes:",
      "      Guess: a fish",
      "   Question: Does it swim? -> no:",
      "      Guess: a bird"]
  {
    SeedQuestionLines();
    SeedGuessLines();
  }

  lemma SeedQuestionLines()
    ensures QuestionLine("Does it swim?", 1, true) == "   Question: Does it swim? -> yes:"
    ensures QuestionLine("Does it swim?", 1, false) == "   Question: Does it swim? -> no:"
  {
    IndentOne();
    SeedHead();
  }

  /** Proof step for SeedQuestionLines: the concatenation at the start of
      the seed's question lines, evaluated. */
  lemma SeedHead()
    ensures "   " + "Question: " + "Does it swim?" == "   Question: Does it swim?"
  {
  }

  /** Proof step for SeedQuestionLines: the indentation of the first level. */
  lemma IndentOne()
    ensures Indent(1) == "   "
  {
  }

  lemma SeedGuessLines()
    ensures GuessLine("a fish", 2) == "      Guess: a fish"
    ensures GuessLine("a bird", 2) == "      Guess: a bird"
  {
    assert Indent(2) == "      ";
  }

  datatype Option<T> = None | Some(value: T)

  /** The question on a line printed before a yes-subtree at `level`, if the
      line is one. */
  function YesQuestion(line: string, level: nat): Option<string>
  {
    var qp := Indent(level) + "Question: ";
    if IsPrefix(qp, line) && |qp| + 8 <= |line| && line[|line| - 8..] == " -> yes:" then
      Some(line[|qp|..|line| - 8])
    else None
  }

  /** The animal on a guess line printed at `level`, if the line is one. */
  function GuessAnimal(line: string, level: nat): Option<string>
  {
    var gp := Indent(level) + "Guess: ";
    if IsPrefix(gp, line) then Some(line[|gp|..]) else None
  }

  datatype Parsed = Parsed(tree: Node, rest: seq<string>) | NoParse

  /** Reads one subtree printed at `level` off the front of `lines`. */
  function ParseTree(lines: seq<string>, level: nat): (r: Parsed)
    ensures r.Parsed? ==> |r.rest| < |lines|
    decreases |lines|
  {
    if lines == [] then NoParse
    else match YesQuestion(lines[0], level)
      case Some(q) =>
        (match ParseTree(lines[1..], level + 1)
         case NoParse => NoParse
         case Parsed(y, rest) =>
           if rest != [] && rest[0] == QuestionLine(q, level, false) then
             match ParseTree(rest[1..], level + 1)
             case NoParse => NoParse
             case Parsed(n, rest') => Parsed(Question(q, y, n), rest')
           else NoParse)
      case None =>
        match GuessAnimal(lines[0], level)
        case Some(a) => Parsed(Guess(a), lines[1..])
        case None => NoParse
  }

  /** A guess line is read as that guess and never as a question line. */
  lemma ReadGuessLine(a: string, level: nat)
    ensures YesQuestion(GuessLine(a, level), level) == None
    ensures GuessAnimal(GuessLine(a, level), level) == Some(a)
  {
    var line, qp, gp := GuessLine(a, level), Indent(level) + "Question: ", Indent(level) + "Guess: ";
    assert line[3 * level] == 'G' && qp[3 * level] == 'Q';
    assert line == gp + a;
  }

  /** A question's yes-line is read as that question. */
  lemma ReadQuestionLine(q: string, level: nat)
    ensures YesQuestion(QuestionLine(q, level, true), level) == Some(q)
  {
    var line, qp := QuestionLine(q, level, true), Indent(level) + "Question: ";
    assert line == qp + q + " -> yes:";
  }

  /** The printed tree determines the tree: parsing what was printed for `t`
      gives back `t` and leaves whatever followed. */
  lemma {:induction false} ParsePrinted(t: Node, level: nat, rest: seq<string>)
    ensures ParseTree(PrintGameTree(t, level) + rest, level) == Parsed(t, rest)
  {
    match t
    case Guess(a) =>
      var lines := PrintGameTree(t, level) + rest;
      assert lines[0] == GuessLine(a, level) && lines[1..] == rest;
      ReadGuessLine(a, level);
    case Question(q, y, n) =>
      var ty, tn := PrintGameTree(y, level + 1), PrintGameTree(n, level + 1);
      ParsePrinted(y, level + 1, [QuestionLine(q, level, false)] + (tn + rest));
      ParsePrinted(n, level + 1, rest);
      ParseQuestion(q, y, n, ty, tn, level, rest);
      PrintedQuestion(q, y, n, level, rest);
  }

  /** The lines printed for a question, grouped for ParseQuestion. */
  lemma PrintedQuestion(q: string, y: Node, n: Node, level: nat, rest: seq<string>)
    ensures PrintGameTree(Question(q, y, n), level) + rest ==
      [QuestionLine(q, level, true)] + (PrintGameTree(y, level + 1) +
        ([QuestionLine(q, level, false)] + (PrintGameTree(n, level + 1) + rest)))
  {
  }

  /** The step of ParsePrinted at a question: once the lines of both
      subtrees read back, so do the question's lines around them. */
  lemma ParseQuestion(q: string, y: Node, n: Node, ty: seq<string>, tn: seq<string>, level: nat, rest: seq<string>)
    requires ParseTree(ty + ([QuestionLine(q, level, false)] + (tn + rest)), level + 1) ==
               Parsed(y, [QuestionLine(q, level, false)] + (tn + rest))
    requires ParseTree(tn + rest, level + 1) == Parsed(n, rest)
    ensures ParseTree([QuestionLine(q, level, true)] + (ty + ([QuestionLine(q, level, false)] + (tn + rest))), level) ==
              Parsed(Question(q, y, n), rest)
  {
    ReadQuestionLine(q, level);
  }
}
