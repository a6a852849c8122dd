/** The game's handling of typed input: stripping, lower-casing, capitalising a
    question and testing an answer for a leading 'y'. Characters are treated as
    in Python restricted to ASCII: only 'A'..'Z' and 'a'..'z' have a case. */
module Text {

  /** A value, or the IndexError Python raises when an empty string is indexed. */
  datatype Result<T> = Ok(value: T) | IndexError

  /** The ASCII characters for which Python's str.isspace() holds. */
  predicate IsSpace(c: char)
  {
    ('\t' <= c <= '\r') || ('\U{1C}' <= c <= '\U{1F}') || c == ' '
  }

  predicate IsUpper(c: char)
  {
    'A' <= c <= 'Z'
  }

  predicate IsLower(c: char)
  {
    'a' <= c <= 'z'
  }

  function LowerChar(c: char): (r: char)
    ensures !IsUpper(r) && (IsSpace(r) <==> IsSpace(c))
  {
    if IsUpper(c) then (c as int + 32) as char else c
  }

  function UpperChar(c: char): (r: char)
    ensures !IsLower(r) && (IsSpace(r) <==> IsSpace(c))
  {
    if IsLower(c) then (c as int - 32) as char else c
  }

  /** str.lower() */
  function Lower(s: string): (r: string)
    ensures |r| == |s| && forall i :: 0 <= i < |s| ==> r[i] == LowerChar(s[i])
  {
    seq(|s|, i requires 0 <= i < |s| => LowerChar(s[i]))
  }

  /** Drops the leading whitespace (see TrimLeftSpec). */
  function TrimLeft(s: string): string
    decreases |s|
  {
    if s != [] && IsSpace(s[0]) then TrimLeft(s[1..]) else s
  }

  /** Drops the trailing whitespace (see TrimRightSpec). */
  function TrimRight(s: string): string
    decreases |s|
  {
    if s != [] && IsSpace(s[|s| - 1]) then TrimRight(s[..|s| - 1]) else s
  }

  /** str.strip() (see StripSpec). */
  function Strip(s: string): string
  {
    TrimRight(TrimLeft(s))
  }

  /** str.capitalize() as applied to an already lower-cased string: the first
      character upper-cased, the rest lower-cased (see CapitalizeSpec). */
  function Capitalize(s: string): (r: string)
    ensures |r| == |s|
  {
    if s == [] then [] else [UpperChar(s[0])] + Lower(s[1..])
  }

  /** What remains of a line after TrimLeft is a suffix of it that is empty or
      starts with a non-space, and everything dropped is space. */
  lemma {:induction false} TrimLeftSpec(s: string)
    ensures var r := TrimLeft(s);
      |r| <= |s| && r == s[|s| - |r|..] &&
      (forall i :: 0 <= i < |s| - |r| ==> IsSpace(s[i])) &&
      (r == [] || !IsSpace(r[0]))
    decreases |s|
  {
    if s != [] && IsSpace(s[0]) {
      TrimLeftSpec(s[1..]);
    }
  }

  /** What remains after TrimRight is a prefix that is empty or ends with a
      non-space, and everything dropped is space. */
  lemma {:induction false} TrimRightSpec(s: string)
    ensures var r := TrimRight(s);
      |r| <= |s| && r == s[..|r|] &&
      (forall i :: |r| <= i < |s| ==> IsSpace(s[i])) &&
      (r == [] || !IsSpace(r[|r| - 1]))
    decreases |s|
  {
    if s != [] && IsSpace(s[|s| - 1]) {
      TrimRightSpec(s[..|s| - 1]);
    }
  }

  /** A stripped line is empty exactly when the line is blank; otherwise it
      starts at the first non-space character of the line and neither starts
      nor ends with a space. */
  lemma StripSpec(s: string)
    ensures Strip(s) == [] <==> forall i :: 0 <= i < |s| ==> IsSpace(s[i])
    ensures Strip(s) != [] ==> TrimLeft(s) != [] && Strip(s)[0] == TrimLeft(s)[0]
    ensures Strip(s) == [] || (!IsSpace(Strip(s)[0]) && !IsSpace(Strip(s)[|Strip(s)| - 1]))
  {
    StripBlank(s);
    StripEnds(s);
  }

  lemma StripBlank(s: string)
    ensures Strip(s) == [] <==> forall i :: 0 <= i < |s| ==> IsSpace(s[i])
  {
    var l := TrimLeft(s);
    TrimLeftSpec(s);
    TrimRightSpec(l);
    if Strip(s) == [] {
      assert l == [];
    } else {
      assert s[|s| - |l|] == l[0];
    }
  }

  lemma StripEnds(s: string)
    ensures Strip(s) != [] ==> TrimLeft(s) != [] && Strip(s)[0] == TrimLeft(s)[0]
    ensures Strip(s) == [] || (!IsSpace(Strip(s)[0]) && !IsSpace(Strip(s)[|Strip(s)| - 1]))
  {
    TrimLeftSpec(s);
    TrimRightSpec(TrimLeft(s));
  }

  /** Capitalising upper-cases the first character and lower-cases the rest,
      so no lower-case letter starts the result and no upper-case letter
      follows. */
  lemma CapitalizeSpec(s: string)
    ensures var r := Capitalize(s);
      (r != [] ==> r[0] == UpperChar(s[0]) && !IsLower(r[0])) &&
      (forall i :: 0 < i < |s| ==> r[i] == LowerChar(s[i]) && !IsUpper(r[i]))
  {
  }

  /** get_one_word_answer() and get_animal(): a read line stripped and lower-cased. */
  function LowerStripped(line: string): string
  {
    Lower(Strip(line))
  }

  /** is_answer_affirmative(): a leading 'y'. Indexing the first character of
      an empty answer raises IndexError. */
  function IsAffirmative(answer: string): (r: Result<bool>)
    ensures r.IndexError? <==> answer == []
    ensures r.Ok? ==> (r.value <==> answer[0] == 'y')
  {
    if answer == [] then IndexError else Ok(answer[0] == 'y')
  }

  /** get_question(): the line stripped, lower-cased and capitalised, with a
      '?' appended unless it already ends in one. A blank line raises
      IndexError when its last character is looked at; otherwise the stored
      question is never empty and always ends in '?'. */
  function GetQuestion(line: string): (r: Result<string>)
    ensures r.IndexError? <==> Strip(line) == []
    ensures r.Ok? ==> |r.value| > 0 && r.value[|r.value| - 1] == '?'
  {
    var q := Capitalize(LowerStripped(line));
    if q == [] then IndexError
    else if q[|q| - 1] != '?' then Ok(q + "?")
    else Ok(q)
  }

  /** A stored question starts with no lower-case letter and has no
      upper-case letter after the first character; the '?' is appended
      exactly when the capitalised text lacks it, so the text before it is
      the capitalised line. */
  lemma GetQuestionShape(line: string)
    requires GetQuestion(line).Ok?
    ensures var q := GetQuestion(line).value;
      !IsLower(q[0]) && (forall i :: 0 < i < |q| ==> !IsUpper(q[i]))
    ensures var q, c := GetQuestion(line).value, Capitalize(LowerStripped(line));
      if c[|c| - 1] == '?' then q == c else q == c + "?"
  {
    CapitalizeSpec(LowerStripped(line));
  }

  /** An answer line counts as "yes" exactly when its first non-blank
      character is 'y' or 'Y'; a blank line raises IndexError. */
  lemma AffirmativeLine(line: string)
    ensures IsAffirmative(LowerStripped(line)).IndexError? <==>
              forall i :: 0 <= i < |line| ==> IsSpace(line[i])
    ensures IsAffirmative(LowerStripped(line)).Ok? ==>
              (IsAffirmative(LowerStripped(line)).value <==>
                 TrimLeft(line)[0] == 'y' || TrimLeft(line)[0] == 'Y')
  {
    StripSpec(line);
  }

  /** A string that neither starts nor ends with a space is its own strip. */
  lemma StripTrimmed(s: string)
    requires s == [] || (!IsSpace(s[0]) && !IsSpace(s[|s| - 1]))
    ensures Strip(s) == s
  {
    assert TrimLeft(s) == s;
  }

  /** Lower-casing keeps spaces and non-spaces where they were. */
  lemma LowerKeepsSpaces(s: string)
    ensures forall i :: 0 <= i < |s| ==> (IsSpace(Lower(s)[i]) <==> IsSpace(s[i]))
  {
  }

  /** Reading back a stored animal name gives the same name. */
  lemma {:induction false} LowerStrippedIdempotent(line: string)
    ensures LowerStripped(LowerStripped(line)) == LowerStripped(line)
  {
    var s := Strip(line);
    var l := Lower(s);
    StripSpec(line);
    LowerKeepsSpaces(s);
    StripTrimmed(l);
    assert Lower(l) == l;
  }

  /** A stored question neither starts nor ends with a space. */
  lemma QuestionTrimmed(line: string)
    requires GetQuestion(line).Ok?
    ensures Strip(GetQuestion(line).value) == GetQuestion(line).value
  {
    var s := Strip(line);
    var q := GetQuestion(line).value;
    StripSpec(line);
    LowerKeepsSpaces(s);
    CapitalizeSpec(Lower(s));
    assert !IsSpace(Lower(s)[0]);
    assert !IsSpace(q[0]);
    StripTrimmed(q);
  }

  /** A string in capitalised form, with no lower-case letter first and no
      upper-case letter after, is its own capitalisation. */
  lemma CapitalizedFixed(s: string)
    requires s != [] ==> !IsLower(s[0])
    requires forall i :: 0 < i < |s| ==> !IsUpper(s[i])
    ensures Capitalize(Lower(s)) == s
  {
    var c := Capitalize(Lower(s));
    CapitalizeSpec(Lower(s));
    forall i | 0 <= i < |s| ensures c[i] == s[i] {
      assert Lower(s)[i] == LowerChar(s[i]);
    }
  }

  /** Lower-casing and capitalising a stored question gives it back. */
  lemma QuestionNormalised(line: string)
    requires GetQuestion(line).Ok?
    ensures Capitalize(Lower(GetQuestion(line).value)) == GetQuestion(line).value
  {
    GetQuestionShape(line);
    CapitalizedFixed(GetQuestion(line).value);
  }

  /** Normalising a stored question again changes nothing. */
  lemma GetQuestionIdempotent(line: string)
    requires GetQuestion(line).Ok?
    ensures GetQuestion(GetQuestion(line).value) == GetQuestion(line)
  {
    QuestionTrimmed(line);
    QuestionNormalised(line);
  }
}
