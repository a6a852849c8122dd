# Guess the Animal, modelled in Dafny

A model of `animal.py`, a Python version of the classic "Guess the Animal"
game. The program keeps a binary decision tree.
- A question node holds a yes/no question and two children.
- A guess node (a leaf) holds an animal name.
- A round starts at the root, "Does it swim?". It asks questions down the
  tree until it reaches a guess and offers it.
- If the guess is wrong, the program reads three lines: the user's animal, a
  question that tells the two animals apart, and the new animal's answer to
  that question. The wrong guess is then replaced, in its parent's slot, by a
  new question node over the old guess and the new one.

The project has two layers.

- Value layer:
  - `Tree` (the tree as a datatype, paths into it, and replacement at a path).
  - `Text` (the input normalisers).
  - `Console` (the terminal as a value: the lines still to be typed and the
    lines printed).
  - `Play` (a round as a function of the tree and of the typed lines).
  - `Trace` (the tree printer, together with a parser that reads the printed
    tree back).
- Heap layer, `Engine`:
  - Question nodes are objects whose yes and no slots are reassigned in place,
    as the Python dictionaries are.
  - Each engine method is proved to do to the tree what the matching `Play`
    or `Trace` function says.
  - The `Game` class holds the root. The root is built once and never
    replaced.

Input is a sequence of typed lines. Reading past the end gives "", as
`readline()` does at end of file. An empty answer, or an empty question, is
indexed at `[0]` or `[-1]` in the source. That raises IndexError, which ends
the program. The model records it as a round that ends with status `Crashed`.
The crash always comes before the splice, so the tree is left as it was.

## Model

| member | source | states |
|---|---|---|
| Text.Lower | animal.py:52 | Lower-casing keeps the length and lower-cases each character |
| Text.Strip | animal.py:61 | Stripping, characterised by Text.StripSpec, Text.TrimLeftSpec and Text.TrimRightSpec |
| Text.Capitalize | animal.py:67 | Capitalising keeps the length; its effect on each character is Text.CapitalizeSpec |
| Text.LowerStripped | animal.py:63-64 | A typed line stripped and lower-cased, as get_one_word_answer and get_animal read it; normalising again changes nothing (Text.LowerStrippedIdempotent) |
| Text.IsAffirmative | animal.py:54-55 | An answer is affirmative exactly when its first character is 'y'; an empty answer raises IndexError, and only an empty one does |
| Text.AffirmativeLine | animal.py:51-55 | A typed answer line counts as yes exactly when its first non-blank character is 'y' or 'Y'; a blank line raises IndexError, and only a blank one does |
| Text.TrimLeftSpec | animal.py:52 | strip() on the left keeps a suffix of the line that is empty or starts with a non-space; only spaces are dropped |
| Text.TrimRightSpec | animal.py:52 | strip() on the right keeps a prefix that is empty or ends with a non-space; only spaces are dropped |
| Text.StripSpec | animal.py:60-61 | A stripped line is empty iff the line is blank; otherwise it neither starts nor ends with a space |
| Text.CapitalizeSpec | animal.py:67 | capitalize() upper-cases the first character and lower-cases the rest |
| Text.LowerStrippedIdempotent | animal.py:63-64 | Normalising a stored animal name again gives the same name |
| Text.GetQuestion | animal.py:66-71 | A stored question is non-empty and ends in '?'; a blank line raises IndexError, and only a blank one does |
| Text.GetQuestionShape | animal.py:66-71 | A stored question has no lower-case first letter and no upper-case letter after it; '?' is appended exactly when the capitalised text lacks it |
| Text.CapitalizedFixed | animal.py:67 | Text already in capitalised form is unchanged by lower() then capitalize() |
| Text.QuestionTrimmed | animal.py:66-71 | A stored question neither starts nor ends with a space |
| Text.GetQuestionIdempotent | animal.py:66-71 | Normalising a stored question again returns it unchanged, so an already correct question such as "Does it fly?" is kept as typed |
| Console.Prompt | animal.py:73-75 | A print followed by a readline appends the prompt to the output and returns the next typed line, consuming exactly that line |
| Console.AdvancesTransitive | animal.py:51-52 | Input is only consumed and output only appended, across any number of steps |
| Tree.Seed | animal.py:29-33 | The starting tree: "Does it swim?" over a fish (yes) and a bird (no); it prints as Trace.SeedTrace says |
| Tree.LeavesOutnumberQuestions | animal.py:12-14 | The tree is strictly binary: it has exactly one more leaf than questions |
| Tree.Replace | animal.py:119-128 | After replacing the slot a path leads to, the new subtree is found at that path, and the root keeps its question |
| Tree.ReplaceElsewhere | animal.py:119-128 | A replacement leaves every subtree apart from the replaced one as it was |
| Tree.ReplaceKeepsAncestors | animal.py:119-128 | Every question on the path to the replaced slot keeps its text |
| Tree.ReplaceLeaves | animal.py:119-128 | The leaves after a replacement are the old leaves, minus those of the replaced subtree, plus those of the new one |
| Tree.ReplaceAddsLeaf | animal.py:109-128 | Replacing a subtree by one with a single extra leaf adds exactly that leaf to the tree |
| Tree.ReplaceQuestionCount | animal.py:119-128 | The question count changes by the difference between the new subtree and the old one |
| Tree.ReplaceWellFormed | animal.py:119-128 | Replacing a subtree by a well-formed one keeps every question non-empty and ending in '?' |
| Trace.Indent | animal.py:170-171 | The indentation is exactly three spaces per level |
| Trace.QuestionLine | animal.py:198-200 | The line printed before a question's yes-subtree or no-subtree; the yes-line is read back as its question (Trace.ReadQuestionLine) |
| Trace.GuessLine | animal.py:203 | The line printed for a guess; read back as its animal (Trace.ReadGuessLine) |
| Trace.PrintGameTree | animal.py:196-204 | The pre-order listing of a tree; it determines the tree (Trace.ParsePrinted), has two lines per question and one per guess (Trace.TraceLength), and indents each line by its level (Trace.TraceIndented) |
| Trace.TraceLength | animal.py:196-204 | The printed tree has two lines per question and one per guess |
| Trace.TraceIndented | animal.py:196-204 | Every line printed for a subtree at a level starts with that level's indentation, so children are indented further than their parent |
| Trace.SeedTrace | animal.py:29-33 | The seed tree prints as the four expected lines |
| Trace.ReadGuessLine | animal.py:203 | A guess line is read back as its animal and never as a question line |
| Trace.ReadQuestionLine | animal.py:198 | A question's yes-line is read back as its question |
| Trace.ParsePrinted | animal.py:196-204 | The printed tree determines the tree: parsing the lines printed for any tree gives that tree back, plus whatever lines followed |
| Play.AskYesNo | animal.py:73-75 | Prints the prompt and consumes exactly one line; the answer is that line's affirmative reading |
| Play.MakeGNode | animal.py:78-80 | The new guess is the next typed line, stripped and lower-cased |
| Play.MakeQuestion | animal.py:84-90 | The new question is the next typed line, normalised by GetQuestion |
| Play.AttachGNodes | animal.py:95-104 | The new question leads, for the new animal's answer, to the new guess and, for the other answer, to the old guess; so its children are exactly {old, new}; a blank answer raises IndexError |
| Play.MakeNewQNode | animal.py:109-116 | Only consumes typed lines and appends printed ones; the node it builds is stated by Play.NewQNodeLayout and Play.NewQNodeGrows |
| Play.Answer | animal.py:51-55 | The yes/no reading of a typed line (stripped, lower-cased, leading 'y'); characterised by Text.AffirmativeLine |
| Play.NewQNodeLayout | animal.py:109-116 | From the three lines typed after a wrong guess, the node built is a question with the normalised second line as its text, leading by the third line's answer to the first line's animal and by the other answer to the old guess; it is built exactly when neither the question nor the answer is blank |
| Play.NewQNodeGrows | animal.py:95-116 | The node built is a well-formed question over the old guess and one new guess |
| Play.PlayGNode | animal.py:134-144 | After printing the guess, the guess is accepted exactly when the answer starts with 'y', and then "Great! Try another animal!" is printed and the leaf is kept; a blank answer crashes and keeps the leaf; the leaf is unchanged unless the round learns, and a round that learns turns it into a well-formed question over itself and one new guess |
| Play.PlayNode | animal.py:150-154 | A round that does not learn leaves the subtree unchanged; a question node keeps its text |
| Play.PlayQNode | animal.py:159-164 | A question keeps its text; the subtree is unchanged unless the round learns (which branch is followed: Play.Walk) |
| Play.PlayGame | animal.py:166-168 | The root stays a question with the same text; the tree is unchanged unless the round learns |
| Play.LearnedReplacesOneLeaf | animal.py:119-144 | A round that learns replaces exactly one leaf by a well-formed question over that leaf and a new guess, and leaves the rest of the tree unchanged (that the leaf is the one the answers lead to: Play.RoundAtWalkedLeaf) |
| Play.Walk | animal.py:150-164 | When the typed answers spell out a path to a guess, the round asks the questions along it, offers that guess, and changes the tree only in that guess's slot, as offering the guess there does |
| Play.WalkReachesLeaf | animal.py:159-164 | A round that does not crash reaches a guess along the path its typed answers select |
| Play.RoundAtWalkedLeaf | animal.py:134-168 | A round that does not crash offers the guess its answers lead to and changes the tree only in that guess's slot: not at all if the guess was right, and to the question built there if it was wrong |
| Play.WrongGuessGrows | animal.py:136-144 | After a "no" to the guess, the round learns exactly when the question and answer lines are not blank, and the leaf becomes the typed question, leading by the typed answer to the typed animal and by the other answer to the old guess |
| Play.GrowsAddsLeaf | animal.py:95-116 | Growing a leaf keeps the old guess as a child and adds one question and one leaf |
| Play.LearnedAddsOneLeaf | animal.py:109-116 | A round that learns adds exactly one question and one leaf, and loses no leaf |
| Play.PlayKeepsWellFormed | animal.py:66-71 | Every question in the tree stays non-empty and ends in '?' across rounds |
| Play.SeedRoundGuessed | animal.py:134-137 | On the seed tree, "yes", "yes" prints the two questions and "Great! Try another animal!" and leaves the tree unchanged |
| Play.SeedRoundLearnsDog | animal.py:119-144 | On the seed tree, "no", "no", "a dog", "Does it bark?", "yes" replaces the bird in the root's no slot by "Does it bark?" over the dog (yes) and the bird (no) |
| Engine.QNode.constructor | animal.py:88-90 | A new question node has both slots unset |
| Engine.QNode.Hang | animal.py:122 | Hanging a node in the slot on the path followed changes only that slot; the other slot and the question stay |
| Engine.MakeQNodeWithQOnly | animal.py:84-90 | Builds a fresh node with the normalised question and unset slots, or nothing if the question is blank |
| Engine.AttachGNodes | animal.py:95-104 | Fills the new node's slots in place as Play.AttachGNodes says; a blank answer leaves them unset |
| Engine.MakeNewQNode | animal.py:109-116 | Builds a fresh, valid node standing for Play.MakeNewQNode's question |
| Engine.InsertNewYesBranchQNode | animal.py:119-122 | Replaces the guess in the parent's yes slot by the new node; the no slot and the question are kept, and a crash changes nothing |
| Engine.InsertNewNoBranchQNode | animal.py:125-128 | Replaces the guess in the parent's no slot by the new node; the yes slot and the question are kept, and a crash changes nothing |
| Engine.PlayGNode | animal.py:134-144 | Updates the parent in place to the tree Play.PlayGNode computes, touching only the slot on the path followed |
| Engine.PlayNode | animal.py:150-154 | Updates the parent in place to the tree Play.PlayNode computes, touching only the slot on the path followed |
| Engine.PlayQNode | animal.py:159-164 | Updates the subtree in place to the tree Play.PlayQNode computes |
| Engine.PlayGame | animal.py:166-168 | Updates the tree in place to the tree Play.PlayGame computes |
| Engine.PrintGameTree | animal.py:196-204 | The lines printed for a node are those Trace.PrintGameTree gives for the tree it stands for |
| Engine.Game.constructor | animal.py:29-33 | The game starts with the seed tree |
| Engine.Game.PlayRound | animal.py:221-225 | A round updates the tree to the one Play.PlayGame computes; the root keeps "Does it swim?" and the tree stays well-formed |
| Engine.Game.PrintTree | animal.py:226-228 | The "tree" command prints the tree as Trace.PrintGameTree gives it, from level 1 (the "Game tree:" header line before it belongs to the top-level loop and is not modelled) |

## Left out

- Reading from `sys.stdin` and the `print` calls are not performed. Typed lines are a parameter, and printed lines are a returned sequence (`Console.Io`).
- The banner and the top-level loop (animal.py:206-231), including `is_answer_tree`, the "Game tree:" header printed before the tree listing and the "Goodbye for now!" exit, are not modelled. They are command-line plumbing around `play_game` and `print_game_tree`, which are modelled as `Engine.Game.PlayRound` and `Engine.Game.PrintTree`.
- `str.lower`, `str.capitalize` and `str.strip` are modelled over ASCII only. Letters outside 'A'..'Z' and 'a'..'z' have no case, and only ASCII whitespace is stripped.
- A guess node is a value held in a slot, not an object with its own identity. The program never updates a guess node, and never tells two equal ones apart.
- `play_node` and `print_game_tree` dispatch on whether a node has a non-empty `'Q'` entry. The model dispatches on the kind of node instead. The two agree because every stored question is non-empty (`Tree.WellFormed`, kept by `Engine.Game.Valid`).
- An IndexError ends the whole program in the source. In the model the round ends with status `Crashed` and the tree unchanged; no round follows in the model, because the top-level loop is left out.
- The indentation level is a natural number. The source is only ever called with levels of 1 and above.
- No deduplication of animal names, rebalancing or persistence is modelled. The program has none of them.
- The interpreter's recursion limit on the `play_q_node`/`play_node` recursion is not modelled; the model's recursion is bounded only by the depth of the tree.

The program does not guard an empty answer: indexing its first character
raises IndexError and ends the program. The model follows the code. An
empty answer is not read as a "no", and a crash is not a recoverable error.
