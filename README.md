# Kaguya password checker and generator, in Dafny

This project models the two parts of the Kaguya password manager's
command-line module that contain logic:

- the strength checker `HandleArgs.check`. It rejects a missing or empty
  password. Any other password is strong when it has at least 8 characters,
  a digit (`\d`), a non-word character (`\W`), an upper-case letter
  (`[A-Z]`) and a lower-case letter (`[a-z]`);
- the generator `HandleArgs.generate`. It picks a length in `[8, 32]`. It
  then builds a buffer from one upper-case letter, one lower-case letter,
  one digit and one character of the hand-written `symbols` string, followed
  by `length - 3` characters of `allchar`. It shuffles the buffer in place
  and passes the result to the checker. A weak candidate makes it start
  again; a strong one is copied to the clipboard.

Modules, one per concern:

- `Results` (`results.dfy`): `Option` for a password that may be `None`, and
  `Result` for outcomes that can fail.
- `Charset` (`charset.dfy`): the regular-expression classes over ASCII, and
  the generator's alphabets `Upper`, `Lower`, `Digits`, `Symbols` and
  `AllChar` as string constants. Also the left-to-right membership scans
  `Occurs` and `DrawnFrom`, with lemmas tying them to sequence membership.
- `Strength` (`strength.dfy`): `Check` as a function. It is built the way
  the source is, from five flags computed by `Search` scans. It is proved
  equal to the policy `IsStrong`, which is stated on its own with
  quantifiers.
- `Generator` (`generator.dfy`): the generator written imperatively.
  `Attempt` builds the buffer with an append loop, copies it into an array
  and shuffles it in place with `FisherYates`. `Generate` runs the retry
  loop. Both methods are proved against the functions `Buffer`, `Shuffle`
  and `Candidate`, and the lemmas are stated about those functions.

Randomness is given as input. Each attempt uses one `Draws` record: the
length `random.randint` chose, the characters the `random.choice` calls
returned, and the index each step of `random.shuffle` drew. `WellFormed`
states what the random source guarantees about these values. The shuffle
follows CPython's `random.shuffle`: for `i` from `n - 1` down to 1 it swaps
position `i` with a drawn index in `[0, i]`.

Two facts proved here differ from how the generator is usually described:

- A generated password has `length + 1` characters: 4 fixed ones plus
  `length - 3` free ones. Its length is therefore in `[9, 33]`, not
  `[8, 32]` (`Generator.Candidate`). The model follows the code.
- Building the buffer this way does not guarantee a strong password.
  `symbols` is the literal text `[!#$%&'()*+,-.\^_`{|}~"]`: 24 characters,
  including the brackets, the backslash and the underscore. The underscore
  is a word character. If `_` is the drawn symbol and no free pick is a
  non-word character, the candidate is weak and the retry path runs
  (`Generator.WeakWithoutNonWordDraw`, `Generator.RetryReachable`). The
  candidate is strong exactly when the drawn symbol is not `_` or a free
  pick is a non-word character (`Generator.CandidateStrongIff`).

## Model

| member | source | states |
|---|---|---|
| `Charset.UpperMembers` | kaguya/cli.py:127 | `string.ascii_uppercase` holds exactly the characters `[A-Z]` matches |
| `Charset.LowerMembers` | kaguya/cli.py:128 | `string.ascii_lowercase` holds exactly the characters `[a-z]` matches |
| `Charset.DigitsMembers` | kaguya/cli.py:129 | `string.digits` holds exactly the ASCII characters `\d` matches |
| `Charset.SymbolMembers` | kaguya/cli.py:130 | every character of the `symbols` string is a non-word character except `_` |
| `Charset.SampleMembers` | kaguya/cli.py:130 | among others, `_` is one of the `symbols` characters |
| `Charset.AlphabetSizes` | kaguya/cli.py:127-131 | the alphabets have 26, 26, 10 and 24 characters, so `allchar` has 86 |
| `Charset.AllCharCovers` | kaguya/cli.py:131 | a character occurs in `allchar` exactly when it occurs in one of the four alphabets |
| `Strength.Search` | kaguya/cli.py:174-183 | a `re.search` for a class finds a match exactly when some character of the string is in the class |
| `Strength.Check` | kaguya/cli.py:153-196 | no verdict (`Err(MissingPassword)`) exactly for a missing or empty password; otherwise the verdict is true exactly when the password meets all five rules (`IsStrong`) |
| `Strength.WordCharsOnlyIsWeak` | kaguya/cli.py:177-192 | a non-empty password made only of letters, digits and `_` is weak, because `_` does not satisfy the `\W` rule |
| `Strength.StrongUnderPermutation` | kaguya/cli.py:171-183 | two passwords with the same characters, each occurring the same number of times, get the same verdict |
| `Strength.StrongExample` | kaguya/cli.py:158-164 | `"Ab1!abcd"` is strong |
| `Strength.LowerOnlyExample` | kaguya/cli.py:158-164 | `"abcdefgh"` is weak |
| `Strength.NoLowerExample` | kaguya/cli.py:158-164 | `"ABCDEFG1"` is weak |
| `Strength.NoDigitExample` | kaguya/cli.py:158-164 | `"Ab!defgh"` is weak |
| `Strength.UnderscoreExample` | kaguya/cli.py:177 | `"Abcdefg1_"` is weak: `_` is not a symbol |
| `Generator.Buffer` | kaguya/cli.py:134-141 | the buffer before the shuffle has `length + 1` characters; its first four are an `[A-Z]` letter, an `[a-z]` letter, a digit and a member of `symbols`; every character is in `allchar` |
| `Generator.Swap` | kaguya/cli.py:142 | one exchange step of the shuffle keeps the length and the multiset, and moves only the two positions |
| `Generator.ShuffleDown` | kaguya/cli.py:142 | the shuffle steps keep the length and the multiset of characters: the shuffle is a permutation |
| `Generator.FisherYates` | kaguya/cli.py:142 | the in-place shuffle leaves the array equal to `Shuffle` of its old contents, with the same multiset |
| `Generator.Candidate` | kaguya/cli.py:133-143 | a candidate has `length + 1` characters, so between 9 and 33; it has the buffer's multiset, so it contains the four class representatives; all its characters are in `allchar` |
| `Generator.Attempt` | kaguya/cli.py:133-143 | the append loop, the in-place shuffle and the join produce exactly `Candidate(d)` |
| `Generator.CandidateStrongIff` | kaguya/cli.py:130-145 | a candidate passes `check` exactly when the drawn symbol is not `_` or some free pick is a non-word character |
| `Generator.CandidateStrongUnlessUnderscore` | kaguya/cli.py:130-145 | when the drawn symbol is not `_`, `check` accepts the candidate |
| `Generator.WeakWithoutNonWordDraw` | kaguya/cli.py:130-146 | when `_` is the drawn symbol and every free pick is a word character, `check` rejects the candidate, so `generate` retries |
| `Generator.RetryReachable` | kaguya/cli.py:145-146 | some well-formed draws give a weak candidate, so the retry branch can run |
| `Generator.Generate` | kaguya/cli.py:121-149 | the password copied out is the candidate of the first attempt `check` accepts, so it is strong, has 9 to 33 characters and is drawn from `allchar`; an error means every attempt was weak; an attempt whose symbol is not `_` always yields a password |

## Left out

- `create_argparser`, `HandleArgs.__init__` and the `retrieve`, `insert` and `edit` placeholders have no logic to model: they only configure argparse, dispatch, do nothing or print.
- `print`, `loguru` logging and `pyperclip.copy` are I/O. The password `generate` copies to the clipboard is `Generate`'s `Ok` result. The "strong"/"weak" messages are not modelled.
- `exit()` on a missing password is modelled as the error result `Err(MissingPassword)`, not as the end of the process.
- The quality and distribution of the random source are not modelled. Draws are arbitrary inputs, limited only to the ranges `random.randint`, `random.choice` and `random.shuffle` guarantee (`WellFormed`). `swaps[0]` is 0 and not used, because `random.shuffle` draws nothing for position 0.
- Generate: the source retries without limit by calling itself again. The model retries once per supplied `Draws` record and returns `Err(RetriesExhausted)` when the records run out.
- Strength.Check: `\d` and `\W` are read over ASCII (digits `0`-`9`; word characters are ASCII letters, digits and `_`). Python also counts non-ASCII digits and letters. This only matters for passwords given to `check` by hand: the generator emits only ASCII.
- Strength.Check: Python's `not password` also rejects other falsy values. The model takes the password as `Option<string>`, so only `None` and `""` are rejected.
