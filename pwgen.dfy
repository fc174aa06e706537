/** pwgen-lite's password generator: the character sets, the alphabet
    assembly with its ambiguous-character removal loop, and the draw of the
    password from that alphabet. */
module Pwgen {
  import opened StrReplace

  // Python's `string.ascii_lowercase`, `string.ascii_uppercase` and
  // `string.digits`; `string.ascii_letters` is lowercase then uppercase.
  const AsciiLowercase: string := "abcdefghijklmnopqrstuvwxyz"
  const AsciiUppercase: string := "ABCDEFGHIJKLMNOPQRSTUVWXYZ"
  const AsciiDigits: string := "0123456789"
  const AsciiLetters: string := AsciiLowercase + AsciiUppercase

  /** Letters then digits: 62 characters. */
  const BaseAlphabet: string := AsciiLetters + AsciiDigits
  /** The 29 punctuation characters appended when symbols are requested. */
  const Symbols: string := "!@#$%^&*()-_=+[]{}|;:,.<>?/~`"
  /** The characters the removal loop visits, in its order. */
  const Ambiguous: string := "O0Il1"

  /** The characters assembled before the removal loop: the 62 letters and
      digits, followed by the 29 symbols when they are requested. */
  function Assembled(useSymbols: bool): (r: string)
    ensures |r| == if useSymbols then 91 else 62
    ensures r[..62] == BaseAlphabet
  {
    BaseAlphabet + (if useSymbols then Symbols else "")
  }

  /** The alphabet passwords are drawn from: the assembled characters with
      every ambiguous one filtered out. It has no `excludeAmbiguous`
      argument because the generator never reads that flag. It is never
      empty, so every draw from it is defined. */
  function Alphabet(useSymbols: bool): (r: string)
    ensures 0 < |r| <= |Assembled(useSymbols)|
  {
    assert 'a' in Assembled(useSymbols);
    WithoutMember(Assembled(useSymbols), Ambiguous, 'a');
    Without(Assembled(useSymbols), Ambiguous)
  }

  /** The alphabet assembly of `generate_password`: concatenate, then run
      `replace(ch, "")` once for each ambiguous character. The result is the
      same whatever `excludeAmbiguous` says. */
  method BuildAlphabet(useSymbols: bool, excludeAmbiguous: bool) returns (alphabet: string)
    ensures alphabet == Alphabet(useSymbols)
  {
    alphabet := BaseAlphabet + (if useSymbols then Symbols else "");
    ghost var assembled := alphabet;
    WithoutNothing(assembled);
    for k := 0 to |Ambiguous|
      invariant alphabet == Without(assembled, Ambiguous[..k])
    {
      ReplaceNext(assembled, Ambiguous, k);
      alphabet := Replace(alphabet, Ambiguous[k]);
    }
    assert Ambiguous[..|Ambiguous|] == Ambiguous;
  }

  /** `"".join(choice(alphabet) for _ in ...)`: the answers of the random
      choice, given as indices into the alphabet, joined in draw order. */
  function Draw(alphabet: string, picks: seq<nat>): (pw: string)
    requires forall k | 0 <= k < |picks| :: picks[k] < |alphabet|
    ensures |pw| == |picks|
    ensures forall k | 0 <= k < |picks| :: pw[k] == alphabet[picks[k]]
  {
    if picks == [] then [] else [alphabet[picks[0]]] + Draw(alphabet, picks[1..])
  }

  /** `generate_password(length, use_symbols, exclude_ambiguous)`, with the
      random choices supplied as `picks`, one in-range index per iteration
      of `range(length)`, which iterates not at all when `length <= 0`. */
  method GeneratePassword(length: int, useSymbols: bool, excludeAmbiguous: bool, picks: seq<nat>)
    returns (pw: string)
    requires |picks| == if length <= 0 then 0 else length
    requires forall k | 0 <= k < |picks| :: picks[k] < |Alphabet(useSymbols)|
    ensures length <= 0 ==> pw == ""
    ensures length > 0 ==> |pw| == length
    ensures forall k | 0 <= k < |pw| :: pw[k] == Alphabet(useSymbols)[picks[k]]
    ensures forall k | 0 <= k < |pw| ::
      pw[k] in Assembled(useSymbols) && pw[k] !in Ambiguous
  {
    var alphabet := BuildAlphabet(useSymbols, excludeAmbiguous);
    pw := Draw(alphabet, picks);
    forall k | 0 <= k < |pw| ensures pw[k] in Assembled(useSymbols) && pw[k] !in Ambiguous {
      assert pw[k] in alphabet;
      WithoutMember(Assembled(useSymbols), Ambiguous, pw[k]);
    }
  }

  predicate IsLower(c: char) { 'a' <= c <= 'z' }
  predicate IsUpper(c: char) { 'A' <= c <= 'Z' }
  predicate IsDigit(c: char) { '0' <= c <= '9' }

  /** `s` is the run of consecutive code points starting at `first`. */
  predicate IsRun(s: string, first: char) {
    forall i | 0 <= i < |s| :: s[i] as int == first as int + i
  }

  /** Of the lowercase letters the removal loop deletes only `l`, the one
      at index 11. */
  lemma LowercaseStripped()
    ensures Without(AsciiLowercase, Ambiguous) == AsciiLowercase[..11] + AsciiLowercase[12..]
  {
    var s := AsciiLowercase;
    LowercaseRun();
    assert s == s[..11] + [s[11]] + s[12..];
    WithoutDropOne(s[..11], s[11], s[12..], Ambiguous);
    WithoutNoneBad(s[12..], Ambiguous);
  }

  /** Of the uppercase letters the removal loop deletes only `I` and `O`,
      at indices 8 and 14. */
  lemma UppercaseStripped()
    ensures Without(AsciiUppercase, Ambiguous)
         == AsciiUppercase[..8] + AsciiUppercase[9..14] + AsciiUppercase[15..]
  {
    var s := AsciiUppercase;
    UppercaseRun();
    assert s == s[..8] + [s[8]] + s[9..];
    WithoutDropOne(s[..8], s[8], s[9..], Ambiguous);
    UppercaseTailStripped();
  }

  /** From `J` on, the removal loop deletes only `O`, at index 14. */
  lemma UppercaseTailStripped()
    ensures Without(AsciiUppercase[9..], Ambiguous) == AsciiUppercase[9..14] + AsciiUppercase[15..]
  {
    var s := AsciiUppercase;
    UppercaseRun();
    assert s[9..] == s[9..14] + [s[14]] + s[15..];
    WithoutDropOne(s[9..14], s[14], s[15..], Ambiguous);
    WithoutNoneBad(s[15..], Ambiguous);
  }

  /** Of the digits it deletes only `0` and `1`, the first two. */
  lemma DigitsStripped()
    ensures Without(AsciiDigits, Ambiguous) == AsciiDigits[2..]
  {
    var s := AsciiDigits;
    DigitsRun();
    assert s[1..] == [] + [s[1]] + s[2..];
    assert s == [] + [s[0]] + s[1..];
    WithoutDropOne([], s[0], s[1..], Ambiguous);
    WithoutDropOne([], s[1], s[2..], Ambiguous);
    WithoutNoneBad(s[2..], Ambiguous);
  }

  /** Without symbols the alphabet is the base set minus `O0Il1`, in the
      base set's order: `a`-`k`, `m`-`z`, `A`-`H`, `J`-`N`, `P`-`Z`, `2`-`9`,
      57 characters. */
  lemma PlainAlphabetExact()
    ensures Alphabet(false) == AsciiLowercase[..11] + AsciiLowercase[12..]
                             + AsciiUppercase[..8] + AsciiUppercase[9..14] + AsciiUppercase[15..]
                             + AsciiDigits[2..]
    ensures |Alphabet(false)| == 57
  {
    assert Assembled(false) == AsciiLowercase + AsciiUppercase + AsciiDigits;
    WithoutConcat(AsciiLowercase + AsciiUppercase, AsciiDigits, Ambiguous);
    WithoutConcat(AsciiLowercase, AsciiUppercase, Ambiguous);
    LowercaseStripped();
    UppercaseStripped();
    DigitsStripped();
  }

  /** With symbols every symbol survives the removal loop, appended after
      the 57 unambiguous letters and digits: 86 characters. */
  lemma SymbolAlphabetExact()
    ensures Alphabet(true) == Alphabet(false) + Symbols
    ensures |Alphabet(true)| == 86
  {
    WithoutConcat(BaseAlphabet, Symbols, Ambiguous);
    SymbolsUnambiguous();
    WithoutNoneBad(Symbols, Ambiguous);
    PlainAlphabetExact();
    assert Assembled(false) == BaseAlphabet;
  }

  /** No symbol is one of the ambiguous characters. */
  lemma SymbolsUnambiguous()
    ensures forall i | 0 <= i < |Symbols| :: Symbols[i] !in Ambiguous
  {}

  /** No symbol is a letter or a digit. */
  lemma SymbolsAreNotAlphanumeric()
    ensures forall i | 0 <= i < |Symbols| ::
      !IsLower(Symbols[i]) && !IsUpper(Symbols[i]) && !IsDigit(Symbols[i])
  {}

  /** The lowercase letters are the code points from `a` on. */
  lemma LowercaseRun() ensures IsRun(AsciiLowercase, 'a') {}
  /** The uppercase letters are the code points from `A` on. */
  lemma UppercaseRun() ensures IsRun(AsciiUppercase, 'A') {}
  /** The digits are the code points from `0` on. */
  lemma DigitsRun() ensures IsRun(AsciiDigits, '0') {}

  /** Lowercase letters, then uppercase letters, then digits. */
  lemma BaseIsAlphanumeric()
    ensures forall i | 0 <= i < |AsciiLowercase| :: IsLower(AsciiLowercase[i])
    ensures forall i | 0 <= i < |AsciiUppercase| :: IsUpper(AsciiUppercase[i])
    ensures forall i | 0 <= i < |AsciiDigits| :: IsDigit(AsciiDigits[i])
  {
    LowercaseRun();
    UppercaseRun();
    DigitsRun();
  }

  /** The symbols share no character with the letters and digits. */
  lemma SymbolsDisjointFromBase()
    ensures forall i | 0 <= i < |BaseAlphabet| :: BaseAlphabet[i] !in Symbols
  {
    BaseIsAlphanumeric();
    SymbolsAreNotAlphanumeric();
    forall i | 0 <= i < |BaseAlphabet| ensures BaseAlphabet[i] !in Symbols {
      var c := BaseAlphabet[i];
      if i < 26 {
        assert c == AsciiLowercase[i];
      } else if i < 52 {
        assert c == AsciiUppercase[i - 26];
      } else {
        assert c == AsciiDigits[i - 52];
      }
      assert IsLower(c) || IsUpper(c) || IsDigit(c);
    }
  }

  /** A run of consecutive code points repeats no character. */
  lemma RunNoDups(s: string, first: char)
    requires IsRun(s, first)
    ensures NoDups(s)
  {
    forall i, j | 0 <= i < j < |s| ensures s[i] != s[j] {
      assert s[i] as int == first as int + i;
      assert s[j] as int == first as int + j;
    }
  }

  /** The 29 symbols are pairwise distinct. */
  lemma SymbolsNoDups()
    ensures NoDups(Symbols)
  {
    var front, back := "!@#$%^&*()-_=+[", "]{}|;:,.<>?/~`";
    assert Symbols == front + back;
    assert NoDups(front);
    assert NoDups(back);
    assert forall i | 0 <= i < |front| :: front[i] !in back;
    NoDupsConcat(front, back);
  }

  /** The letters and digits are pairwise distinct. */
  lemma BaseNoDups()
    ensures NoDups(BaseAlphabet)
  {
    LowercaseRun();
    UppercaseRun();
    DigitsRun();
    RunNoDups(AsciiLowercase, 'a');
    RunNoDups(AsciiUppercase, 'A');
    RunNoDups(AsciiDigits, '0');
    BaseIsAlphanumeric();
    assert forall i | 0 <= i < |AsciiLowercase| :: AsciiLowercase[i] !in AsciiUppercase;
    NoDupsConcat(AsciiLowercase, AsciiUppercase);
    forall i | 0 <= i < |AsciiLetters| ensures AsciiLetters[i] !in AsciiDigits {
      if i < 26 {
        assert AsciiLetters[i] == AsciiLowercase[i];
      } else {
        assert AsciiLetters[i] == AsciiUppercase[i - 26];
      }
    }
    NoDupsConcat(AsciiLetters, AsciiDigits);
  }

  /** The assembled characters are pairwise distinct. */
  lemma AssembledNoDups(useSymbols: bool)
    ensures NoDups(Assembled(useSymbols))
  {
    BaseNoDups();
    if useSymbols {
      SymbolsNoDups();
      SymbolsDisjointFromBase();
      NoDupsConcat(BaseAlphabet, Symbols);
    } else {
      assert Assembled(false) == BaseAlphabet;
    }
  }

  /** A character is in a run exactly when its code point lies in the
      run's range. */
  lemma RunMember(s: string, first: char, c: char)
    requires IsRun(s, first)
    ensures c in s <==> first as int <= c as int < first as int + |s|
  {
    if first as int <= c as int < first as int + |s| {
      var i := c as int - first as int;
      assert s[i] as int == c as int;
    }
  }

  /** The letters and digits are exactly the characters of the three
      classes. */
  lemma BaseMember(c: char)
    ensures c in BaseAlphabet <==> IsLower(c) || IsUpper(c) || IsDigit(c)
  {
    LowercaseRun();
    UppercaseRun();
    DigitsRun();
    RunMember(AsciiLowercase, 'a', c);
    RunMember(AsciiUppercase, 'A', c);
    RunMember(AsciiDigits, '0', c);
  }

  /** Membership in the alphabet, independent of how it is built: a letter,
      a digit or (with symbols on) a symbol, and never `O`, `0`, `I`, `l`
      or `1`. */
  lemma AlphabetMember(useSymbols: bool, c: char)
    ensures c in Alphabet(useSymbols)
        <==> (IsLower(c) || IsUpper(c) || IsDigit(c) || (useSymbols && c in Symbols))
             && c != 'O' && c != '0' && c != 'I' && c != 'l' && c != '1'
  {
    WithoutMember(Assembled(useSymbols), Ambiguous, c);
    BaseMember(c);
  }

  /** Either alphabet is non-empty, duplicate-free and free of every
      ambiguous character, whether or not ambiguity exclusion was asked for. */
  lemma AlphabetWellFormed(useSymbols: bool)
    ensures |Alphabet(useSymbols)| > 0
    ensures NoDups(Alphabet(useSymbols))
    ensures forall c | c in Ambiguous :: c !in Alphabet(useSymbols)
  {
    AssembledNoDups(useSymbols);
    WithoutNoDups(Assembled(useSymbols), Ambiguous);
    assert 'a' in Assembled(useSymbols);
    WithoutMember(Assembled(useSymbols), Ambiguous, 'a');
    forall c | c in Ambiguous ensures c !in Alphabet(useSymbols) {
      WithoutMember(Assembled(useSymbols), Ambiguous, c);
    }
  }
}
