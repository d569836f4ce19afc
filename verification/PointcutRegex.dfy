/** What the two regular expressions of the pointcut parser match, as texts put together from their parts (aop.py). */
module PointcutRegexes {
  import opened Options
  import opened PointcutCalls
  import opened Pointcuts
  import opened Strings

  predicate Blanks(b: string) { forall i | 0 <= i < |b| :: PyBlank(b[i]) }

  // ---- A call ----

  lemma {:induction false} StripLeftOf(b: string, rest: string)
    requires Blanks(b) && (rest != "" ==> !PyBlank(rest[0]))
    ensures StripLeft(b + rest, PyBlank) == rest
  {
    if |b| == 0 {
      assert b + rest == rest;
    } else {
      assert (b + rest)[1..] == b[1..] + rest;
      StripLeftOf(b[1..], rest);
    }
  }

  lemma SkipOf(b: string, c: char, rest: string)
    requires Blanks(b) && !PyBlank(c)
    ensures Skip(b + ([c] + rest), c, PyBlank) == Some(rest)
  {
    StripLeftOf(b, [c] + rest);
    assert ([c] + rest)[1..] == rest;
  }

  lemma SkippedParts(s: string, c: char) returns (b: string)
    requires Skip(s, c, PyBlank).Some?
    ensures Blanks(b) && s == b + ([c] + Skip(s, c, PyBlank).value)
  {
    var lo := StripLeftIsSuffix(s, PyBlank);
    b := s[..lo];
    assert s[lo..] == [c] + s[lo..][1..];
    assert s == b + s[lo..];
  }

  lemma {:induction false} WordOf(w: string, rest: string)
    requires (forall i | 0 <= i < |w| :: WordChar(w[i])) && (rest != "" ==> !WordChar(rest[0]))
    ensures WordLength(w + rest) == |w|
  {
    if |w| == 0 {
      assert w + rest == rest;
    } else {
      assert (w + rest)[1..] == w[1..] + rest;
      WordOf(w[1..], rest);
    }
  }

  lemma {:induction false} WordChars(s: string)
    ensures forall i | 0 <= i < WordLength(s) :: WordChar(s[i])
  {
    if |s| > 0 && WordChar(s[0]) {
      WordChars(s[1..]);
      assert forall i | 1 <= i < WordLength(s) :: s[i] == s[1..][i - 1];
    }
  }

  /** A name, blanks, an opening parenthesis, blanks, a closing one. */
  ghost predicate IsCall(s: string, name: string, b: string, b': string, rest: string) {
    IsName(name) && Blanks(b) && Blanks(b') && s == name + (b + ("(" + (b' + (")" + rest))))
  }

  lemma NoBlankInName()
    ensures !PyBlank('(') && !PyBlank(')')
    ensures forall c | PyBlank(c) :: !WordChar(c)
  {
  }

  lemma NameEnds(b: string, tail: string)
    requires Blanks(b)
    ensures !WordChar((b + ("(" + tail))[0])
  {
    NoBlankInName();
    assert (b + ("(" + tail))[0] == if b == "" then '(' else b[0];
  }

  lemma CallIsMatched(s: string, name: string, b: string, b': string, rest: string)
    requires IsCall(s, name, b, b', rest)
    ensures MatchCall(s, PyBlank) == Some(Match(name, rest))
  {
    var inner := b' + (")" + rest);
    var tail := b + ("(" + inner);
    NoBlankInName();
    NameEnds(b, inner);
    WordOf(name, tail);
    assert s[..|name|] == name && s[|name|..] == tail && s[0] == name[0];
    SkipOf(b, '(', inner);
    SkipOf(b', ')', rest);
  }

  lemma WordIsName(s: string)
    requires |s| > 0 && LowerCase(s[0])
    ensures IsName(s[..WordLength(s)])
  {
    WordChars(s);
    assert WordChar(s[0]);
  }

  /** What the matcher finds, step by step. */
  lemma MatchedSteps(s: string)
    requires MatchCall(s, PyBlank).Some?
    ensures |s| > 0 && LowerCase(s[0])
    ensures var n, m := WordLength(s), MatchCall(s, PyBlank).value;
            && m.text == s[..n] && Skip(s[n..], '(', PyBlank).Some?
            && Skip(Skip(s[n..], '(', PyBlank).value, ')', PyBlank) == Some(m.rest)
  {
  }

  lemma PutTogether(s: string, n: nat, b: string, inner: string, b': string, rest: string)
    requires n <= |s| && s[n..] == b + ("(" + inner) && inner == b' + (")" + rest)
    ensures s == s[..n] + (b + ("(" + (b' + (")" + rest))))
  {
    assert s == s[..n] + s[n..];
  }

  lemma MatchedIsCall(s: string) returns (b: string, b': string)
    requires MatchCall(s, PyBlank).Some?
    ensures IsCall(s, MatchCall(s, PyBlank).value.text, b, b', MatchCall(s, PyBlank).value.rest)
  {
    MatchedSteps(s);
    WordIsName(s);
    var n := WordLength(s);
    var inner := Skip(s[n..], '(', PyBlank).value;
    b := SkippedParts(s[n..], '(');
    b' := SkippedParts(inner, ')');
    PutTogether(s, n, b, inner, b', MatchCall(s, PyBlank).value.rest);
  }

  /** The expression for calls matches at the front of a text exactly when the text begins with a call, and then it
      takes the name and leaves what follows. */
  lemma CallExactly(s: string, name: string, rest: string)
    ensures MatchCall(s, PyBlank) == Some(Match(name, rest)) <==>
            exists b: string, b': string :: IsCall(s, name, b, b', rest)
  {
    if MatchCall(s, PyBlank) == Some(Match(name, rest)) {
      var b, b' := MatchedIsCall(s);
    }
    if b: string, b': string :| IsCall(s, name, b, b', rest) {
      CallIsMatched(s, name, b, b', rest);
    }
  }

  // ---- The arguments ----

  lemma {:induction false} UntilOf(text: string, c: char, rest: string)
    requires c !in text
    ensures Until(text + ([c] + rest), c) == |text|
  {
    if |text| == 0 {
      assert text + ([c] + rest) == [c] + rest;
    } else {
      assert (text + ([c] + rest))[1..] == text[1..] + ([c] + rest);
      UntilOf(text[1..], c, rest);
    }
  }

  lemma QuotedIsMatched(q: char, text: string, b: string, rest: string)
    requires (q == '"' || q == '\'') && text != "" && q !in text && Blanks(b)
    ensures MatchQuoted([q] + (text + ([q] + (b + (")" + rest)))), q, PyBlank) == Some(Match(text, rest))
  {
    var behind := b + (")" + rest);
    var s := [q] + (text + ([q] + behind));
    assert s[1..] == text + ([q] + behind);
    UntilOf(text, q, behind);
    assert s[1..|text| + 1] == text && s[|text| + 2..] == behind;
    NoBlankInName();
    SkipOf(b, ')', rest);
  }

  /** The opening of an argument list: the word in either case, blanks, the parenthesis, blanks. */
  ghost predicate Opens(s: string, word: string, b: string, b': string, inner: string) {
    |word| == 4 && ArgsWord(word) && Blanks(b) && Blanks(b') && s == word + (b + ("(" + (b' + inner)))
  }

  lemma OpeningIsSkipped(s: string, word: string, b: string, b': string, inner: string)
    requires Opens(s, word, b, b', inner)
    ensures MatchArgs(s, PyBlank) == ArgsText(b' + inner, PyBlank)
  {
    assert s[4..] == b + ("(" + (b' + inner)) && forall i | 0 <= i < 4 :: s[i] == word[i];
    NoBlankInName();
    SkipOf(b, '(', b' + inner);
  }

  lemma QuotesAreVisible()
    ensures !PyBlank('"') && !PyBlank('\'')
  {
  }

  /** A quoted text is taken whole, whatever stands in it, when no quote of its kind does. */
  lemma QuotedArgumentIsRead(s: string, word: string, b: string, b': string, q: char, text: string, b'': string,
        rest: string)
    requires (q == '"' || q == '\'') && text != "" && q !in text && Blanks(b'')
    requires Opens(s, word, b, b', [q] + (text + ([q] + (b'' + (")" + rest)))))
    ensures MatchArgs(s, PyBlank) == Some(Match(text, rest))
  {
    var inner := [q] + (text + ([q] + (b'' + (")" + rest))));
    OpeningIsSkipped(s, word, b, b', inner);
    QuotesAreVisible();
    StripLeftOf(b', inner);
    QuotedIsMatched(q, text, b'', rest);
    assert inner[0] == q;
  }

  /** A text without quotes is taken up to the parenthesis, with the blanks behind it. */
  lemma BareArgumentIsRead(s: string, word: string, b: string, b': string, text: string, rest: string)
    requires text != "" && !PyBlank(text[0]) && text[0] != '"' && text[0] != '\'' && ')' !in text
    requires Opens(s, word, b, b', text + (")" + rest))
    ensures MatchArgs(s, PyBlank) == Some(Match(text, rest))
  {
    var inner := text + (")" + rest);
    OpeningIsSkipped(s, word, b, b', inner);
    assert inner[0] == text[0];
    StripLeftOf(b', inner);
    UntilOf(text, ')', rest);
    assert inner[..|text|] == text && inner[|text| + 1..] == rest;
  }

  /** The word, in lower and in upper case, and with the long s that counts as one. */
  lemma ArgsWords(rest: string)
    ensures ArgsWord("args" + rest) && ArgsWord("ARGS" + rest) && ArgsWord("Arg\U{017F}" + rest)
    ensures !ArgsWord("arg") && !ArgsWord("arks" + rest)
  {
  }
}
