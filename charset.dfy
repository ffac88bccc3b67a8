/** The character classes of the strength rules (the regular-expression
    classes `\d`, `\W`, `[A-Z]`, `[a-z]`, read over ASCII) and the four
    alphabets the generator draws from (kaguya/cli.py:127-131). */
module Charset {

  /** `[A-Z]`. */
  predicate IsUpper(c: char) { 'A' <= c <= 'Z' }

  /** `[a-z]`. */
  predicate IsLower(c: char) { 'a' <= c <= 'z' }

  /** `\d`, over ASCII. */
  predicate IsDigit(c: char) { '0' <= c <= '9' }

  /** `\w`, over ASCII: a letter, a digit or the underscore. */
  predicate IsWordChar(c: char) { IsUpper(c) || IsLower(c) || IsDigit(c) || c == '_' }

  /** `\W`: anything that is not a word character. */
  predicate IsNonWord(c: char) { !IsWordChar(c) }

  /** `string.ascii_uppercase`. */
  const Upper: string := "ABCDEFGHIJKLMNOPQRSTUVWXYZ"

  /** `string.ascii_lowercase`. */
  const Lower: string := "abcdefghijklmnopqrstuvwxyz"

  /** `string.digits`. */
  const Digits: string := "0123456789"

  /** The generator's hand-written symbol string. It keeps the brackets of
      what reads like a regular-expression class as literal characters, and
      it contains the backslash and the underscore. */
  const Symbols: string := "[!#$%&'()*+,-.\\^_`{|}~\"]"

  /** Everything the generator may draw for the free positions. */
  const AllChar: string := Upper + Lower + Digits + Symbols

  /** `c` occurs in `s`, as a left-to-right scan finds it. */
  predicate Occurs(c: char, s: string)
    decreases |s|
  {
    s != [] && (s[0] == c || Occurs(c, s[1..]))
  }

  /** The scan finds exactly the members of `s`. */
  lemma {:induction false} OccursExactly(c: char, s: string)
    ensures Occurs(c, s) <==> c in s
    decreases |s|
  {
    if s != [] {
      OccursExactly(c, s[1..]);
      assert forall x :: x in s <==> x == s[0] || x in s[1..];
    }
  }

  /** Every character of `s` occurs in `alphabet`: each of the draws
      `random.choice(alphabet)` makes. */
  predicate DrawnFrom(s: string, alphabet: string)
    decreases |s|
  {
    s == [] || (Occurs(s[0], alphabet) && DrawnFrom(s[1..], alphabet))
  }

  /** `DrawnFrom` holds exactly when every position of `s` holds a character
      of the alphabet. */
  lemma {:induction false} DrawnFromExactly(s: string, alphabet: string)
    ensures DrawnFrom(s, alphabet) <==> forall k :: 0 <= k < |s| ==> s[k] in alphabet
    decreases |s|
  {
    if s != [] {
      OccursExactly(s[0], alphabet);
      DrawnFromExactly(s[1..], alphabet);
      assert forall k :: 1 <= k < |s| ==> s[k] == s[1..][k - 1];
    }
  }

  /** 26 + 26 + 10 + 24 characters to draw from. */
  lemma AlphabetSizes()
    ensures |Upper| == 26 && |Lower| == 26 && |Digits| == 10
    ensures |Symbols| == 24 && |AllChar| == 86
  {
  }

  /** `Upper` holds exactly the characters of `[A-Z]`. */
  lemma UpperExactly(c: char)
    ensures Occurs(c, Upper) <==> IsUpper(c)
  {
    OccursExactly(c, Upper);
    UpperMembers(c);
  }

  /** The same, stated with sequence membership. */
  lemma UpperMembers(c: char)
    ensures c in Upper <==> IsUpper(c)
  {
  }

  /** `Lower` holds exactly the characters of `[a-z]`. */
  lemma LowerExactly(c: char)
    ensures Occurs(c, Lower) <==> IsLower(c)
  {
    OccursExactly(c, Lower);
    LowerMembers(c);
  }

  /** The same, stated with sequence membership. */
  lemma LowerMembers(c: char)
    ensures c in Lower <==> IsLower(c)
  {
  }

  /** `Digits` holds exactly the characters of `\d`. */
  lemma DigitsExactly(c: char)
    ensures Occurs(c, Digits) <==> IsDigit(c)
  {
    OccursExactly(c, Digits);
    DigitsMembers(c);
  }

  /** The same, stated with sequence membership. */
  lemma DigitsMembers(c: char)
    ensures c in Digits <==> IsDigit(c)
  {
  }

  /** Every symbol but the underscore is a non-word character. */
  lemma SymbolsNonWord(c: char)
    requires Occurs(c, Symbols)
    ensures IsNonWord(c) <==> c != '_'
  {
    OccursExactly(c, Symbols);
    SymbolMembers(c);
  }

  /** The same, stated with sequence membership. */
  lemma SymbolMembers(c: char)
    requires c in Symbols
    ensures IsNonWord(c) <==> c != '_'
  {
  }

  /** A character occurs in a concatenation when it occurs in either part. */
  lemma OccursAppend(c: char, s: string, t: string)
    ensures Occurs(c, s + t) <==> Occurs(c, s) || Occurs(c, t)
  {
    OccursExactly(c, s);
    OccursExactly(c, t);
    OccursExactly(c, s + t);
  }

  /** A concatenation is drawn from an alphabet when both parts are. */
  lemma {:induction false} DrawnFromAppend(s: string, t: string, alphabet: string)
    ensures DrawnFrom(s + t, alphabet) <==> DrawnFrom(s, alphabet) && DrawnFrom(t, alphabet)
    decreases |s|
  {
    if s != [] {
      assert (s + t)[0] == s[0];
      assert (s + t)[1..] == s[1..] + t;
      DrawnFromAppend(s[1..], t, alphabet);
    } else {
      assert s + t == t;
    }
  }

  /** `AllChar` is the union of the four alphabets. */
  lemma AllCharCovers(c: char)
    ensures Occurs(c, AllChar) <==>
      Occurs(c, Upper) || Occurs(c, Lower) || Occurs(c, Digits) || Occurs(c, Symbols)
  {
    OccursAppend(c, Upper + Lower + Digits, Symbols);
    OccursAppend(c, Upper + Lower, Digits);
    OccursAppend(c, Upper, Lower);
  }

  /** Four characters that occur in an alphabet are drawn from it. */
  lemma DrawnFromFour(u: char, l: char, g: char, s: char, alphabet: string)
    requires Occurs(u, alphabet) && Occurs(l, alphabet) && Occurs(g, alphabet) && Occurs(s, alphabet)
    ensures DrawnFrom([u, l, g, s], alphabet)
  {
    assert [u, l, g, s][1..] == [l, g, s];
    assert [l, g, s][1..] == [g, s];
    assert [g, s][1..] == [s];
    assert [s][1..] == [];
    assert DrawnFrom([s], alphabet);
    assert DrawnFrom([g, s], alphabet);
    assert DrawnFrom([l, g, s], alphabet);
  }

  /** Sample members: the first letter of each letter alphabet, the first
      digit, and the underscore among the symbols; a run of "A" is drawn
      from `AllChar`. */
  lemma SampleMembers()
    ensures Occurs('A', Upper) && Occurs('a', Lower) && Occurs('0', Digits)
    ensures Occurs('_', Symbols) && DrawnFrom("AAAAA", AllChar)
  {
    OccursExactly('_', Symbols);
    assert Symbols[16] == '_';
    SampleRunDrawnFrom();
  }

  lemma SampleRunDrawnFrom()
    ensures DrawnFrom("AAAAA", AllChar)
  {
    var run := "AAAAA";
    assert AllChar[0] == 'A';
    assert forall k :: 0 <= k < |run| ==> run[k] == 'A';
    DrawnFromExactly(run, AllChar);
  }
}
