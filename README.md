# pwgen-lite password generator, modelled in Dafny

pwgen-lite is a small command-line password generator. Its core is one
function, `generate_password(length, use_symbols, exclude_ambiguous)`. It
assembles an alphabet: the ASCII letters and digits, plus 29 punctuation
symbols when `use_symbols` is set. It then deletes `O`, `0`, `I`, `l` and
`1` from that alphabet with one `str.replace(ch, "")` per character. Last,
it joins `length` characters drawn from the alphabet by `secrets.choice`.

The model has two modules:

- `StrReplace` (`str_replace.dfy`) models Python's `str.replace(ch, "")`
  for a one-character pattern as `Replace`. `Without` is the
  order-preserving filter that specifies it. The lemmas prove that each
  pass deletes every copy of `ch`, keeps every other character in order,
  and is idempotent. They also prove that consecutive passes compose into
  a single filter.
- `Pwgen` (`pwgen.dfy`) holds the character-set constants. `BuildAlphabet`
  is the alphabet assembly with its removal loop, proved by loop invariant
  to equal the filter function `Alphabet`. `Draw` is the join of the
  random draws and `GeneratePassword` is the whole function. The lemmas
  fix the alphabet exactly: 57 characters without symbols and 86 with
  them, duplicate-free, never empty, and with no ambiguous character.

The code never reads `exclude_ambiguous`: the removal loop runs on every
call. The model does the same. `BuildAlphabet` and `GeneratePassword` take
the flag and ignore it, and their contracts hold for both of its values.
The help text of `--exclude-ambigous` (pwgen.py:35) presents the exclusion
as an option, but `generate_password` never reads the flag; the model
follows the code.

`secrets.choice` is an operating-system random source. The model replaces
it with a caller-supplied sequence `picks`. It holds one answer per
iteration of `range(length)`, and each answer is an index below the
alphabet's size. That is all the code relies on.

## Model

| member | source | states |
|---|---|---|
| `StrReplace.Replace` | pwgen.py:22 | after `replace(ch, "")` the string no longer contains `ch` |
| `StrReplace.ReplaceCounts` | pwgen.py:22 | `replace(ch, "")` drops every copy of `ch` and keeps every copy of every other character (multiset equality) |
| `StrReplace.ReplaceIsWithout` | pwgen.py:22 | `replace(ch, "")` equals the order-preserving filter that removes `ch` |
| `StrReplace.ReplaceAbsent` | pwgen.py:22 | a string without `ch` comes back unchanged |
| `StrReplace.ReplaceIdempotent` | pwgen.py:22 | applying `replace(ch, "")` twice equals applying it once |
| `StrReplace.ReplaceNext` | pwgen.py:21-22 | one more loop pass with the next ambiguous character extends the filter by that character |
| `StrReplace.Without` | pwgen.py:21-22 | filtering never lengthens the string |
| `StrReplace.WithoutMember` | pwgen.py:21-22 | a character survives the filter iff it was present and is not filtered out |
| `StrReplace.WithoutConcat` | pwgen.py:21-22 | filtering distributes over concatenation, so surviving characters keep their relative order |
| `StrReplace.WithoutTwice` | pwgen.py:21-22 | filtering by one string and then another equals filtering by both at once |
| `StrReplace.WithoutNoDups` | pwgen.py:21-22 | filtering a duplicate-free string leaves it duplicate-free |
| `Pwgen.Assembled` | pwgen.py:20 | reference definition of the concatenation: the 62 letters and digits come first, and the 29 symbols follow only when `use_symbols` is set (62 or 91 characters) |
| `Pwgen.Alphabet` | pwgen.py:20-22 | reference definition: the assembled set filtered by `O0Il1`, with no flag argument; it is never empty and never longer than the assembled set |
| `Pwgen.BuildAlphabet` | pwgen.py:20-22 | concatenating and then running the five `replace` passes yields exactly the assembled set filtered by `O0Il1`, whatever `excludeAmbiguous` is |
| `Pwgen.Draw` | pwgen.py:24 | the join has one character per draw, the k-th being the alphabet character the k-th draw picked |
| `Pwgen.GeneratePassword` | pwgen.py:15-24 | one pick is needed per iteration of `range(length)`, none when `length <= 0`; the password is empty when `length <= 0` and otherwise has exactly `length` characters; each is the picked alphabet character, comes from the assembled set and is not ambiguous, whatever `excludeAmbiguous` is |
| `Pwgen.LowercaseStripped` | pwgen.py:20-22 | of the lowercase letters the loop deletes only `l` (index 11) |
| `Pwgen.UppercaseStripped` | pwgen.py:20-22 | of the uppercase letters the loop deletes only `I` and `O` (indices 8 and 14) |
| `Pwgen.DigitsStripped` | pwgen.py:20-22 | of the digits the loop deletes only `0` and `1` |
| `Pwgen.PlainAlphabetExact` | pwgen.py:20-22 | without symbols the alphabet is `a`-`k`, `m`-`z`, `A`-`H`, `J`-`N`, `P`-`Z`, `2`-`9` in that order, 57 characters |
| `Pwgen.SymbolAlphabetExact` | pwgen.py:20-22 | with symbols the alphabet is the 57-character one followed by all 29 symbols, 86 characters |
| `Pwgen.SymbolsUnambiguous` | pwgen.py:13 | no symbol is one of `O0Il1` |
| `Pwgen.SymbolsAreNotAlphanumeric` | pwgen.py:13 | no symbol is a letter or a digit |
| `Pwgen.BaseIsAlphanumeric` | pwgen.py:12 | the base set consists of lowercase letters, then uppercase letters, then digits |
| `Pwgen.SymbolsDisjointFromBase` | pwgen.py:12-13 | the symbol set shares no character with the letters and digits |
| `Pwgen.SymbolsNoDups` | pwgen.py:13 | the 29 symbols are pairwise distinct |
| `Pwgen.BaseNoDups` | pwgen.py:12 | the 62 letters and digits are pairwise distinct |
| `Pwgen.AssembledNoDups` | pwgen.py:20 | the assembled alphabet, with or without symbols, has no repeated character |
| `Pwgen.BaseMember` | pwgen.py:12 | a character is in the base set iff it is an ASCII lowercase letter, uppercase letter or digit |
| `Pwgen.AlphabetMember` | pwgen.py:20-22 | a character is in the final alphabet iff it is a letter, a digit or (with symbols on) a symbol, and is none of `O0Il1` |
| `Pwgen.AlphabetWellFormed` | pwgen.py:20-24 | either alphabet is non-empty, so every draw is well defined; it is duplicate-free and contains no ambiguous character |

## Left out

- `parse_arguments` and `main` (pwgen.py:26-49): argument parsing and printing. The `length <= 0` guard in `main` (pwgen.py:41-43) is what callers do before calling; `GeneratePassword` still covers `length <= 0` and returns the empty string, as `range` does.
- The randomness of `secrets.choice`: it is an operating-system source, so the model takes its answers as the `picks` parameter. Uniformity and unpredictability cannot be stated here.
- Python `str.replace` with patterns longer than one character, or with a non-empty replacement, is not modelled; the code uses only `replace(ch, "")`.
