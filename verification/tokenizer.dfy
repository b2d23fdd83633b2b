/**
 * The tokenizer behind array_from_split_string: repeated strtok_r calls as
 * in section 7.24.5.8 of ISO C11. Each call skips the delimiters in front of
 * the saved position, takes the maximal run of non-delimiters that follows
 * as the token, overwrites the delimiter that ends it and saves the position
 * just past that delimiter (or the end of the text). The saved position is
 * modelled as the text that remains; the delimiter string as the set of its
 * characters, which is all strtok_r looks at.
 */
module Tokenizer {
  import opened Wrappers

  /** t contains no character of the delimiter set d. */
  predicate NoDelimiter(t: string, d: set<char>)
  {
    forall i :: 0 <= i < |t| ==> t[i] !in d
  }

  /** Every character of t is a delimiter. */
  predicate OnlyDelimiters(t: string, d: set<char>)
  {
    forall i :: 0 <= i < |t| ==> t[i] in d
  }

  /** s with every character of d removed, order kept. */
  function Strip(s: string, d: set<char>): string
  {
    if s == [] then []
    else if s[0] in d then Strip(s[1..], d)
    else [s[0]] + Strip(s[1..], d)
  }

  /** The concatenation of a sequence of tokens. */
  function Concat(ts: seq<string>): string
  {
    if ts == [] then [] else ts[0] + Concat(ts[1..])
  }

  /** One token and the text left after it. */
  datatype Cut = Cut(token: string, rest: string)

  /**
   * The scan for the end of a token: the run of non-delimiters in front of
   * s, and the text after the delimiter that ends it (empty at the end of
   * the text).
   */
  function ScanToken(s: string, d: set<char>): (cut: Cut)
    ensures |cut.rest| <= |s|
    ensures s != [] ==> |cut.rest| < |s|
  {
    if s == [] then Cut([], [])
    else if s[0] in d then Cut([], s[1..])
    else
      var tail := ScanToken(s[1..], d);
      Cut([s[0]] + tail.token, tail.rest)
  }

  /**
   * One strtok_r call from the saved position s: None when only delimiters
   * are left, otherwise the next token and the new saved position.
   */
  function NextToken(s: string, d: set<char>): (r: Option<Cut>)
    ensures r.Some? ==> |r.value.rest| < |s|
  {
    if s == [] then None
    else if s[0] in d then NextToken(s[1..], d)
    else Some(ScanToken(s, d))
  }

  /** The scanned token holds no delimiter and no character is lost around it. */
  lemma {:induction false} ScanTokenKeepsText(s: string, d: set<char>)
    ensures NoDelimiter(ScanToken(s, d).token, d)
    ensures Strip(s, d) == ScanToken(s, d).token + Strip(ScanToken(s, d).rest, d)
    decreases |s|
  {
    if s != [] && s[0] !in d {
      ScanTokenKeepsText(s[1..], d);
    }
  }

  /**
   * strtok_r finds a token exactly when a non-delimiter is left; the token
   * is non-empty and delimiter-free, and without delimiters s is the token
   * followed by the rest.
   */
  lemma {:induction false} NextTokenYieldsRun(s: string, d: set<char>)
    ensures NextToken(s, d).None? <==> OnlyDelimiters(s, d)
    ensures NextToken(s, d).Some? ==>
      && NextToken(s, d).value.token != []
      && NoDelimiter(NextToken(s, d).value.token, d)
      && Strip(s, d) == NextToken(s, d).value.token + Strip(NextToken(s, d).value.rest, d)
    decreases |s|
  {
    if s == [] {
    } else if s[0] in d {
      NextTokenYieldsRun(s[1..], d);
      assert OnlyDelimiters(s, d) <==> OnlyDelimiters(s[1..], d);
    } else {
      ScanTokenKeepsText(s, d);
      assert !OnlyDelimiters(s, d);
    }
  }

  /**
   * Every token strtok_r yields for s, in order: the loop of src/array.c that
   * calls it until it returns NULL. Every call consumes at least one
   * character, so there are never more tokens than characters.
   */
  function Tokens(s: string, d: set<char>): (ts: seq<string>)
    decreases |s|
    ensures |ts| <= |s|
  {
    match NextToken(s, d)
    case None => []
    case Some(cut) => [cut.token] + Tokens(cut.rest, d)
  }

  /** One strtok_r call peels the first token off the list of tokens. */
  lemma TokensUnfold(s: string, d: set<char>)
    ensures NextToken(s, d).None? ==> Tokens(s, d) == []
    ensures NextToken(s, d).Some? ==>
      Tokens(s, d) == [NextToken(s, d).value.token] + Tokens(NextToken(s, d).value.rest, d)
  {
  }

  /** Text made only of delimiters has no characters left once they are removed. */
  lemma {:induction false} StripDelimiters(s: string, d: set<char>)
    requires OnlyDelimiters(s, d)
    ensures Strip(s, d) == []
    decreases |s|
  {
    if s != [] {
      StripDelimiters(s[1..], d);
    }
  }

  /**
   * The tokens are what strtok_r promises: each is non-empty and
   * delimiter-free, and together they are s without its delimiters.
   */
  lemma {:induction false} TokensCoverText(s: string, d: set<char>)
    ensures forall i :: 0 <= i < |Tokens(s, d)| ==> Tokens(s, d)[i] != [] && NoDelimiter(Tokens(s, d)[i], d)
    ensures Concat(Tokens(s, d)) == Strip(s, d)
    decreases |s|
  {
    NextTokenYieldsRun(s, d);
    match NextToken(s, d)
    case None =>
      StripDelimiters(s, d);
    case Some(cut) =>
      TokensCoverText(cut.rest, d);
      var ts := Tokens(s, d);
      assert ts == [cut.token] + Tokens(cut.rest, d);
      assert ts[1..] == Tokens(cut.rest, d);
  }

  /** A delimiter-free text is scanned whole. */
  lemma {:induction false} ScanDelimiterFree(s: string, d: set<char>)
    requires NoDelimiter(s, d)
    ensures ScanToken(s, d) == Cut(s, [])
    decreases |s|
  {
    if s != [] {
      ScanDelimiterFree(s[1..], d);
      assert s == [s[0]] + s[1..];
    }
  }

  /** A run of non-delimiters with nothing around it is one token. */
  lemma DelimiterFreeIsOneToken(s: string, d: set<char>)
    requires s != [] && NoDelimiter(s, d)
    ensures Tokens(s, d) == [s]
  {
    ScanDelimiterFree(s, d);
    assert s[0] !in d;
    assert NextToken(s, d) == Some(Cut(s, []));
    assert Tokens([], d) == [];
  }

  /** Text made only of delimiters yields no token. */
  lemma OnlyDelimitersNoTokens(s: string, d: set<char>)
    requires OnlyDelimiters(s, d)
    ensures Tokens(s, d) == []
  {
    NextTokenYieldsRun(s, d);
  }

  /**
   * The token scan stops at the first delimiter: appending [c] + b to a
   * changes the rest only, and changes the token not at all.
   */
  lemma {:induction false} ScanStopsAtDelimiter(a: string, c: char, b: string, d: set<char>)
    requires c in d
    ensures ScanToken(a + [c] + b, d)
            == Cut(ScanToken(a, d).token,
                   if NoDelimiter(a, d) then b else ScanToken(a, d).rest + [c] + b)
    decreases |a|
  {
    var s := a + [c] + b;
    if a == [] {
      assert s == [c] + b;
    } else {
      assert s[0] == a[0] && s[1..] == a[1..] + [c] + b;
      if a[0] in d {
        assert !NoDelimiter(a, d);
      } else {
        ScanStopsAtDelimiter(a[1..], c, b, d);
        assert NoDelimiter(a, d) <==> NoDelimiter(a[1..], d);
      }
    }
  }

  /** A leading delimiter is skipped: it changes neither the tokens nor their order. */
  lemma LeadingDelimiter(c: char, s: string, d: set<char>)
    requires c in d
    ensures Tokens([c] + s, d) == Tokens(s, d)
  {
    assert ([c] + s)[0] == c && ([c] + s)[1..] == s;
    assert NextToken([c] + s, d) == NextToken(s, d);
  }

  /**
   * Every delimiter separates: the tokens of a + [c] + b are those of a
   * followed by those of b. With DelimiterFreeIsOneToken and
   * OnlyDelimitersNoTokens this determines Tokens completely.
   */
  lemma {:induction false} DelimiterSeparates(a: string, c: char, b: string, d: set<char>)
    requires c in d
    ensures Tokens(a + [c] + b, d) == Tokens(a, d) + Tokens(b, d)
    decreases |a|
  {
    var s := a + [c] + b;
    if a == [] {
      assert s == [c] + b;
      LeadingDelimiter(c, b, d);
    } else if a[0] in d {
      assert s == [a[0]] + (a[1..] + [c] + b);
      assert a == [a[0]] + a[1..];
      LeadingDelimiter(a[0], a[1..] + [c] + b, d);
      LeadingDelimiter(a[0], a[1..], d);
      DelimiterSeparates(a[1..], c, b, d);
    } else {
      var cut := ScanToken(a, d);
      ScanStopsAtDelimiter(a, c, b, d);
      assert s[0] == a[0];
      if NoDelimiter(a, d) {
        ScanDelimiterFree(a, d);
        assert Tokens(s, d) == [cut.token] + Tokens(b, d);
        assert Tokens(a, d) == [cut.token] + Tokens([], d);
      } else {
        assert Tokens(s, d) == [cut.token] + Tokens(cut.rest + [c] + b, d);
        assert Tokens(a, d) == [cut.token] + Tokens(cut.rest, d);
        DelimiterSeparates(cut.rest, c, b, d);
      }
    }
  }

  /** Two delimiter-free words around one delimiter are exactly two tokens. */
  lemma TwoWords(first: string, c: char, second: string, d: set<char>)
    requires c in d && first != [] && second != []
    requires NoDelimiter(first, d) && NoDelimiter(second, d)
    ensures Tokens(first + [c] + second, d) == [first, second]
  {
    DelimiterSeparates(first, c, second, d);
    DelimiterFreeIsOneToken(first, d);
    DelimiterFreeIsOneToken(second, d);
  }

  /** The example of the test driver: "Hello,World" split on "," is ["Hello", "World"]. */
  lemma HelloWorldSplit()
    ensures Tokens("Hello,World", {','}) == ["Hello", "World"]
  {
    assert "Hello,World" == "Hello" + [','] + "World";
    TwoWords("Hello", ',', "World", {','});
  }
}
