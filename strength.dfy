/** The password strength checker, `HandleArgs.check` (kaguya/cli.py:153-196). */
module Strength {
  import opened Results
  import opened Charset

  /** The character classes the checker searches for. */
  datatype CharClass = Digit | NonWord | UpperLetter | LowerLetter

  predicate InClass(c: char, cls: CharClass) {
    match cls
    case Digit => IsDigit(c)
    case NonWord => IsNonWord(c)
    case UpperLetter => IsUpper(c)
    case LowerLetter => IsLower(c)
  }

  /** The minimum length of a strong password. */
  const MinLength: nat := 8

  /** Why the checker gives no verdict. */
  datatype CheckError = MissingPassword

  /** The strength policy, stated on its own: long enough, and at least one
      character of each of the four classes. */
  ghost predicate IsStrong(p: string) {
    && |p| >= MinLength
    && (exists c :: c in p && IsDigit(c))
    && (exists c :: c in p && IsNonWord(c))
    && (exists c :: c in p && IsUpper(c))
    && (exists c :: c in p && IsLower(c))
  }

  /** `re.search(<class>, s) is not None`: a left-to-right scan for a
      character of the class. */
  function Search(s: string, cls: CharClass): (found: bool)
    ensures found <==> exists c :: c in s && InClass(c, cls)
  {
    if s == [] then false
    else if InClass(s[0], cls) then true
    else
      assert forall c :: c in s ==> c == s[0] || c in s[1..];
      Search(s[1..], cls)
  }

  /** `HandleArgs.check`. A missing or empty password gets no verdict (the
      source prints a prompt and exits); any other password gets the verdict
      of the five rules. */
  function Check(password: Option<string>): (r: Result<bool, CheckError>)
    ensures r.Err? <==> password == None || password == Some([])
    ensures r.Err? ==> r.error == MissingPassword
    ensures r.Ok? ==> (r.value <==> IsStrong(password.value))
  {
    if password.None? || password.value == [] then
      Err(MissingPassword)
    else
      var p := password.value;
      var lengthError := |p| < MinLength;
      var digitError := !Search(p, Digit);
      var symbolError := !Search(p, NonWord);
      var uppercaseError := !Search(p, UpperLetter);
      var lowercaseError := !Search(p, LowerLetter);
      Ok(!(lengthError || digitError || symbolError || uppercaseError || lowercaseError))
  }

  /** A password made only of letters, digits and underscores is weak: the
      underscore is a word character, so it does not satisfy the symbol rule. */
  lemma WordCharsOnlyIsWeak(p: string)
    requires p != []
    requires forall i :: 0 <= i < |p| ==> IsWordChar(p[i])
    ensures Check(Some(p)) == Ok(false)
  {
  }

  /** Strength depends only on which characters occur how often, not on
      their order, so a shuffle cannot change the verdict. */
  lemma StrongUnderPermutation(p: string, q: string)
    requires multiset(p) == multiset(q)
    ensures IsStrong(p) <==> IsStrong(q)
  {
    assert |p| == |multiset(p)| == |multiset(q)| == |q|;
    forall c
      ensures c in p <==> c in q
    {
      assert c in p <==> c in multiset(p);
      assert c in q <==> c in multiset(q);
    }
  }

  lemma StrongExample()
    ensures Check(Some("Ab1!abcd")) == Ok(true)
  {
    var p := "Ab1!abcd";
    assert p[2] in p && IsDigit(p[2]);
    assert p[3] in p && IsNonWord(p[3]);
    assert p[0] in p && IsUpper(p[0]);
    assert p[1] in p && IsLower(p[1]);
  }

  /** "abcdefgh" has no upper-case letter, digit or symbol. */
  lemma LowerOnlyExample()
    ensures Check(Some("abcdefgh")) == Ok(false)
  {
    var p := "abcdefgh";
    assert forall i :: 0 <= i < |p| ==> IsLower(p[i]);
    WordCharsOnlyIsWeak(p);
  }

  /** "ABCDEFG1" has no lower-case letter or symbol. */
  lemma NoLowerExample()
    ensures Check(Some("ABCDEFG1")) == Ok(false)
  {
    var p := "ABCDEFG1";
    assert forall i :: 0 <= i < |p| ==> IsUpper(p[i]) || IsDigit(p[i]);
    WordCharsOnlyIsWeak(p);
  }

  /** "Ab!defgh" has no digit. */
  lemma NoDigitExample()
    ensures Check(Some("Ab!defgh")) == Ok(false)
  {
    var p := "Ab!defgh";
    assert forall i :: 0 <= i < |p| ==> !IsDigit(p[i]);
  }

  /** "Abcdefg1_" has the right length and every class but a symbol. */
  lemma UnderscoreExample()
    ensures Check(Some("Abcdefg1_")) == Ok(false)
  {
    var p := "Abcdefg1_";
    assert forall i :: 0 <= i < |p| ==> IsWordChar(p[i]);
    WordCharsOnlyIsWeak(p);
  }
}
