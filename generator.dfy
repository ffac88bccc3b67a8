/** The password generator, `HandleArgs.generate` (kaguya/cli.py:121-149).

    Randomness is injected: every attempt consumes one `Draws` record holding
    the length `random.randint(8, 32)` chose, the character each
    `random.choice` returned and the index each step of `random.shuffle`
    drew. */
module Generator {
  import opened Results
  import opened Charset
  import opened Strength

  /** The random choices of one attempt: the chosen length, the character
      each `random.choice` returned (`rest` in the order the loop appends
      them) and the index each step of `random.shuffle` drew; `swaps[i]` is
      the index position `i` is exchanged with (position 0 takes no step, so
      `swaps[0]` is always 0 and unused). */
  datatype Draws = Draws(
    length: nat,
    upper: char,
    lower: char,
    digit: char,
    symbol: char,
    rest: string,
    swaps: seq<nat>)

  /** The indices `random.shuffle` may draw for a sequence of `n` elements:
      the step at position `i` picks an index in `[0, i]`. */
  predicate ValidSwaps(swaps: seq<nat>, n: nat) {
    |swaps| == n && forall i :: 0 <= i < n ==> swaps[i] <= i
  }

  /** What the random source guarantees of the draws: the length lies in
      `[8, 32]`, every character comes from the alphabet it was chosen from,
      the loop appends `length - 3` characters, and the shuffle draws are in
      range for the `length + 1` characters of the buffer. */
  predicate WellFormed(d: Draws) {
    && 8 <= d.length <= 32
    && Occurs(d.upper, Upper)
    && Occurs(d.lower, Lower)
    && Occurs(d.digit, Digits)
    && Occurs(d.symbol, Symbols)
    && |d.rest| == d.length - 3
    && DrawnFrom(d.rest, AllChar)
    && ValidSwaps(d.swaps, d.length + 1)
  }

  /** Why the generator gives up. */
  datatype GenError = RetriesExhausted

  /** The buffer before the shuffle: one character of each of the four
      alphabets, then the free picks. */
  function Buffer(d: Draws): (b: string)
    requires WellFormed(d)
    ensures |b| == d.length + 1
    ensures IsUpper(b[0]) && IsLower(b[1]) && IsDigit(b[2]) && Occurs(b[3], Symbols)
    ensures DrawnFrom(b, AllChar)
  {
    UpperExactly(d.upper);
    LowerExactly(d.lower);
    DigitsExactly(d.digit);
    AllCharCovers(d.upper);
    AllCharCovers(d.lower);
    AllCharCovers(d.digit);
    AllCharCovers(d.symbol);
    DrawnFromFour(d.upper, d.lower, d.digit, d.symbol, AllChar);
    DrawnFromAppend([d.upper, d.lower, d.digit, d.symbol], d.rest, AllChar);
    [d.upper, d.lower, d.digit, d.symbol] + d.rest
  }

  /** Exchanges the elements at `i` and `j`. */
  function Swap<T>(s: seq<T>, i: nat, j: nat): (r: seq<T>)
    requires i < |s| && j < |s|
    ensures |r| == |s| && multiset(r) == multiset(s)
    ensures r[i] == s[j] && r[j] == s[i]
    ensures forall k :: 0 <= k < |s| && k != i && k != j ==> r[k] == s[k]
  {
    s[i := s[j]][j := s[i]]
  }

  /** The steps of `random.shuffle` at positions `k - 1`, `k - 2`, ..., `1`,
      in that order. */
  function ShuffleDown<T>(s: seq<T>, swaps: seq<nat>, k: nat): (r: seq<T>)
    requires ValidSwaps(swaps, |s|) && k <= |s|
    ensures |r| == |s| && multiset(r) == multiset(s)
    ensures forall i :: k <= i < |s| ==> r[i] == s[i]
    decreases k
  {
    if k <= 1 then s else ShuffleDown(Swap(s, k - 1, swaps[k - 1]), swaps, k - 1)
  }

  /** `random.shuffle` with the given draws. */
  function Shuffle<T>(s: seq<T>, swaps: seq<nat>): (r: seq<T>)
    requires ValidSwaps(swaps, |s|)
  {
    ShuffleDown(s, swaps, |s|)
  }

  /** The candidate password one attempt produces. Its length is one more
      than the chosen length, so it lies in `[9, 33]`; it is a rearrangement
      of the buffer, so it keeps the buffer's four class representatives,
      and it is drawn from `AllChar`. */
  function Candidate(d: Draws): (c: string)
    requires WellFormed(d)
    ensures |c| == d.length + 1 && 9 <= |c| <= 33
    ensures multiset(c) == multiset(Buffer(d))
    ensures Buffer(d)[0] in c && Buffer(d)[1] in c && Buffer(d)[2] in c && Buffer(d)[3] in c
    ensures DrawnFrom(c, AllChar)
  {
    var b := Buffer(d);
    var c := Shuffle(b, d.swaps);
    assert forall x :: x in c <==> x in b by {
      forall x ensures x in c <==> x in b {
        assert x in c <==> x in multiset(c);
        assert x in b <==> x in multiset(b);
      }
    }
    assert b[0] in b && b[1] in b && b[2] in b && b[3] in b;
    DrawnFromExactly(b, AllChar);
    RearrangedStaysIn(b, c, AllChar);
    DrawnFromExactly(c, AllChar);
    c
  }

  /** A rearrangement of a string drawn from an alphabet is drawn from it too. */
  lemma RearrangedStaysIn(s: string, t: string, alphabet: string)
    requires multiset(s) == multiset(t)
    requires forall i :: 0 <= i < |s| ==> s[i] in alphabet
    ensures forall i :: 0 <= i < |t| ==> t[i] in alphabet
  {
    forall i | 0 <= i < |t|
      ensures t[i] in alphabet
    {
      assert t[i] in multiset(t);
      var j :| 0 <= j < |s| && s[j] == t[i];
    }
  }

  /** An attempt's candidate is strong exactly when the buffer holds a
      non-word character: the drawn symbol is not `_`, or one of the free
      picks is a non-word character. Length, digit and both letter cases are
      guaranteed by construction. */
  lemma CandidateStrongIff(d: Draws)
    requires WellFormed(d)
    ensures IsStrong(Candidate(d)) <==>
      (d.symbol != '_' || exists k :: 0 <= k < |d.rest| && IsNonWord(d.rest[k]))
  {
    var b := Buffer(d);
    assert b == [d.upper, d.lower, d.digit, d.symbol] + d.rest;
    StrongUnderPermutation(Candidate(d), b);
    SeedStrongIff(d.upper, d.lower, d.digit, d.symbol, d.rest);
    SeedNonWordIff(d.upper, d.lower, d.digit, d.symbol, d.rest);
    SymbolsNonWord(d.symbol);
  }

  /** A buffer that starts with an upper-case letter, a lower-case letter and
      a digit and has at least 8 characters is strong exactly when it holds a
      non-word character. */
  lemma SeedStrongIff(u: char, l: char, g: char, s: char, rest: string)
    requires IsUpper(u) && IsLower(l) && IsDigit(g) && |rest| >= 4
    ensures IsStrong([u, l, g, s] + rest) <==> exists c :: c in [u, l, g, s] + rest && IsNonWord(c)
  {
    var b := [u, l, g, s] + rest;
    assert b[0] == u && b[1] == l && b[2] == g;
    assert u in b && l in b && g in b;
  }

  /** Such a buffer holds a non-word character exactly when its fourth
      character or one of the rest is one: the first three are word
      characters. */
  lemma SeedNonWordIff(u: char, l: char, g: char, s: char, rest: string)
    requires IsUpper(u) && IsLower(l) && IsDigit(g)
    ensures (exists c :: c in [u, l, g, s] + rest && IsNonWord(c)) <==>
      (IsNonWord(s) || exists k :: 0 <= k < |rest| && IsNonWord(rest[k]))
  {
    var b := [u, l, g, s] + rest;
    assert b[3] == s;
    if k :| 0 <= k < |rest| && IsNonWord(rest[k]) {
      assert b[4 + k] == rest[k];
    }
    if c :| c in b && IsNonWord(c) {
      var i :| 0 <= i < |b| && b[i] == c;
      if i >= 4 {
        assert rest[i - 4] == c;
      }
    }
  }

  /** When the drawn symbol is not `_`, the candidate passes the checker. */
  lemma CandidateStrongUnlessUnderscore(d: Draws)
    requires WellFormed(d)
    requires d.symbol != '_'
    ensures Check(Some(Candidate(d))) == Ok(true)
  {
    CandidateStrongIff(d);
  }

  /** Construction alone does not guarantee a strong password: when `_` is
      the drawn symbol and every free pick is a letter, a digit or `_`, the
      candidate is weak and the generator has to retry. */
  lemma WeakWithoutNonWordDraw(d: Draws)
    requires WellFormed(d)
    requires d.symbol == '_'
    requires forall k :: 0 <= k < |d.rest| ==> IsWordChar(d.rest[k])
    ensures Check(Some(Candidate(d))) == Ok(false)
  {
    CandidateStrongIff(d);
  }

  /** Such draws exist, so the retry path of the generator is reachable. */
  lemma RetryReachable()
    ensures exists d :: WellFormed(d) && Check(Some(Candidate(d))) == Ok(false)
  {
    var d := UnderscoreDraws();
    UnderscoreDrawsWellFormed();
    UnderscoreDrawsHaveNoNonWord();
    WeakWithoutNonWordDraw(d);
  }

  lemma UnderscoreDrawsWellFormed()
    ensures WellFormed(UnderscoreDraws())
  {
    SampleMembers();
    UnderscoreSwapsValid();
    EightCharacterDrawsWellFormed(UnderscoreDraws());
  }

  lemma UnderscoreSwapsValid()
    ensures ValidSwaps(UnderscoreDraws().swaps, 9)
  {
  }

  /** The conditions `WellFormed` places on draws for the length 8. */
  lemma EightCharacterDrawsWellFormed(d: Draws)
    requires d.length == 8 && |d.rest| == 5 && ValidSwaps(d.swaps, 9)
    requires Occurs(d.upper, Upper) && Occurs(d.lower, Lower)
    requires Occurs(d.digit, Digits) && Occurs(d.symbol, Symbols)
    requires DrawnFrom(d.rest, AllChar)
    ensures WellFormed(d)
  {
  }

  lemma UnderscoreDrawsHaveNoNonWord()
    ensures UnderscoreDraws().symbol == '_'
    ensures forall k :: 0 <= k < |UnderscoreDraws().rest| ==> IsWordChar(UnderscoreDraws().rest[k])
  {
    var rest := "AAAAA";
    assert forall k :: 0 <= k < |rest| ==> rest[k] == 'A';
  }

  /** Length 8, "A", "a", "0", the symbol `_` and five more "A"s, with every
      shuffle step exchanging with position 0. */
  function UnderscoreDraws(): Draws {
    Draws(8, 'A', 'a', '0', '_', "AAAAA", [0, 0, 0, 0, 0, 0, 0, 0, 0])
  }

  /** `random.shuffle` on an array, in place: for `i` from `a.Length - 1`
      down to 1, exchange `a[i]` with `a[swaps[i]]`. */
  method FisherYates<T>(a: array<T>, swaps: seq<nat>)
    requires ValidSwaps(swaps, a.Length)
    modifies a
    ensures a[..] == Shuffle(old(a[..]), swaps)
    ensures multiset(a[..]) == multiset(old(a[..]))
  {
    var k := a.Length;
    while k > 1
      invariant 0 <= k <= a.Length
      invariant ShuffleDown(a[..], swaps, k) == Shuffle(old(a[..]), swaps)
    {
      var i := k - 1;
      var j := swaps[i];
      ghost var before := a[..];
      a[i], a[j] := a[j], a[i];
      assert a[..] == Swap(before, i, j);
      k := i;
    }
  }

  /** One attempt: build the buffer by appending, shuffle it in place, join. */
  method Attempt(d: Draws) returns (candidate: string)
    requires WellFormed(d)
    ensures candidate == Candidate(d)
  {
    var buffer := [d.upper, d.lower, d.digit, d.symbol];
    for i := 0 to d.length - 3
      invariant buffer == [d.upper, d.lower, d.digit, d.symbol] + d.rest[..i]
    {
      assert d.rest[..i + 1] == d.rest[..i] + [d.rest[i]];
      buffer := buffer + [d.rest[i]];
    }
    assert d.rest[..d.length - 3] == d.rest;
    var a := new char[|buffer|](k requires 0 <= k < |buffer| => buffer[k]);
    assert a[..] == Buffer(d);
    FisherYates(a, d.swaps);
    candidate := a[..];
  }

  /** `HandleArgs.generate`, with the recursion on a weak candidate turned
      into a loop over the supplied attempts. The result, the password the
      source copies to the clipboard, is the candidate of the first attempt
      the checker finds strong; when no attempt is strong the generator
      reports `RetriesExhausted`. An attempt whose symbol is not `_` always
      ends the search. */
  method Generate(attempts: seq<Draws>) returns (r: Result<string, GenError>)
    requires forall k :: 0 <= k < |attempts| ==> WellFormed(attempts[k])
    ensures r.Ok? ==>
      (exists k :: 0 <= k < |attempts| && r.value == Candidate(attempts[k])
        && forall j :: 0 <= j < k ==> !IsStrong(Candidate(attempts[j])))
    ensures r.Ok? ==> IsStrong(r.value) && Check(Some(r.value)) == Ok(true)
    ensures r.Ok? ==> 9 <= |r.value| <= 33 && DrawnFrom(r.value, AllChar)
    ensures r.Err? ==>
      (r.error == RetriesExhausted && forall k :: 0 <= k < |attempts| ==> !IsStrong(Candidate(attempts[k])))
    ensures (exists k :: 0 <= k < |attempts| && attempts[k].symbol != '_') ==> r.Ok?
  {
    var n := 0;
    while n < |attempts|
      invariant 0 <= n <= |attempts|
      invariant forall k :: 0 <= k < n ==> !IsStrong(Candidate(attempts[k]))
    {
      var candidate := Attempt(attempts[n]);
      var verdict := Check(Some(candidate));
      if verdict == Ok(true) {
        return Ok(candidate);
      }
      forall k | 0 <= k < n + 1
        ensures !IsStrong(Candidate(attempts[k]))
      {
        if k == n {
          assert attempts[k] == attempts[n];
        }
      }
      n := n + 1;
    }
    forall k | 0 <= k < |attempts| && attempts[k].symbol != '_'
      ensures IsStrong(Candidate(attempts[k]))
    {
      CandidateStrongUnlessUnderscore(attempts[k]);
    }
    return Err(RetriesExhausted);
  }
}
