/** What the parser gets back out of a dumped trace. */
module KvRoundTrip {
  import opened Wrappers
  import opened Bytes
  import opened KvTrace

  // ------------------------------------------------------------------ the expression, declaratively

  predicate AllSpace(s: ByteString) {
    forall i :: 0 <= i < |s| ==> s[i] == 9 || s[i] == 10 || s[i] == 12 || s[i] == 13 || s[i] == 32
  }

  // \s* or \s+: any run of blanks may be cut off, not only the longest.
  ghost predicate Blanks(s: ByteString, rest: ByteString, least: nat) {
    exists n: nat :: least <= n <= |s| && AllSpace(s[..n]) && rest == s[n..]
  }

  // ([^"]*)"
  ghost predicate Quoted(s: ByteString, text: ByteString, rest: ByteString) {
    exists n: nat :: n < |s| && s[n] == QUOTE && text == s[..n] && QUOTE !in text && rest == s[n + 1..]
  }

  ghost predicate Assigns(s: ByteString, text: ByteString, rest: ByteString) {
    exists a, b ::
      && Blanks(s, a, 0) && a != [] && a[0] == EQUALS
      && Blanks(a[1..], b, 0) && b != [] && b[0] == QUOTE
      && Quoted(b[1..], text, rest)
  }

  ghost predicate WordThenBlanks(s: ByteString, w: ByteString, rest: ByteString)
    requires Lower(w)
  {
    Word(s, w).Some? && Blanks(Word(s, w).value, rest, 1)
  }

  ghost predicate PairMatches(s: ByteString, key: ByteString, value: ByteString, rest: ByteString) {
    exists s2, s3 ::
      && Word(s, Ascii("key")).Some? && Assigns(Word(s, Ascii("key")).value, key, s2)
      && Blanks(s2, s3, 1)
      && Word(s3, Ascii("value")).Some? && Assigns(Word(s3, Ascii("value")).value, value, rest)
  }

  // store\s+set\s+key\s*=\s*"([^"]*)"\s+value\s*=\s*"([^"]*)" matches a prefix of s.
  ghost predicate ExpressionMatches(s: ByteString, key: ByteString, value: ByteString, rest: ByteString) {
    exists s1, s2 ::
      && WordThenBlanks(s, Ascii("store"), s1)
      && WordThenBlanks(s1, Ascii("set"), s2)
      && PairMatches(s2, key, value, rest)
  }

  // A spelling of a lower-case letter: itself, its capital, or the other rune that folds to it.
  predicate Spells(p: ByteString, c: Byte) {
    || p == [c]
    || (c >= 32 && p == [c - 32])
    || (c == 115 && p == [0xC5, 0xBF])
    || (c == 107 && p == [0xE2, 0x84, 0xAA])
  }

  // The word in some spelling, and then the rest.
  ghost predicate Spelled(s: ByteString, w: ByteString, rest: ByteString)
    decreases |w|
  {
    if w == [] then s == rest
    else exists p: ByteString, tail: ByteString :: s == p + tail && Spells(p, w[0]) && Spelled(tail, w[1..], rest)
  }

  lemma LetterIsSpelled(s: ByteString, c: Byte, tail: ByteString)
    requires 97 <= c <= 122
    ensures Letter(s, c) == Some(tail) <==> exists p: ByteString :: s == p + tail && Spells(p, c)
  {
    if Letter(s, c) == Some(tail) {
      var p := s[..|s| - |tail|];
      assert s == p + tail && Spells(p, c);
    }
    if p: ByteString :| s == p + tail && Spells(p, c) {
      assert s[..|p|] == p && s[|p|..] == tail;
    }
  }

  /** A word is matched in exactly the spellings that fold to it, letter by letter. */
  lemma {:induction false} WordIsSpelled(s: ByteString, w: ByteString, rest: ByteString)
    requires Lower(w)
    ensures Word(s, w) == Some(rest) <==> Spelled(s, w, rest)
    decreases |w|
  {
    hide Letter, Spells;
    if w != [] {
      if Word(s, w) == Some(rest) {
        var tail := Letter(s, w[0]).value;
        LetterIsSpelled(s, w[0], tail);
        WordIsSpelled(tail, w[1..], rest);
      }
      if Spelled(s, w, rest) {
        var p: ByteString, tail: ByteString :| s == p + tail && Spells(p, w[0]) && Spelled(tail, w[1..], rest);
        LetterIsSpelled(s, w[0], tail);
        WordIsSpelled(tail, w[1..], rest);
      }
    }
  }

  lemma OneMoreBlank(s: ByteString, rest: ByteString)
    requires s != [] && IsSpace(s[0]) && Blanks(s[1..], rest, 0)
    ensures Blanks(s, rest, 1)
  {
    hide IsSpace;
    var n: nat :| 0 <= n <= |s[1..]| && AllSpace(s[1..][..n]) && rest == s[1..][n..];
    CutBlanks(s, n);
    assert rest == s[n + 1..];
  }

  lemma CutBlanks(s: ByteString, n: nat)
    requires s != [] && IsSpace(s[0]) && n < |s| && AllSpace(s[1..][..n])
    ensures AllSpace(s[..n + 1])
  {
    assert s[..n + 1] == [s[0]] + s[1..][..n];
  }

  lemma {:induction false} SpacesAreBlanks(s: ByteString)
    ensures Blanks(s, Spaces(s), 0)
    ensures Spaces(s) != [] ==> !IsSpace(Spaces(s)[0])
    decreases |s|
  {
    if s != [] && IsSpace(s[0]) {
      SpacesAreBlanks(s[1..]);
      OneMoreBlank(s, Spaces(s[1..]));
    } else {
      assert AllSpace(s[..0]) && s == s[0..];
    }
  }

  lemma {:induction false} BlanksAreGreedy(s: ByteString, rest: ByteString, least: nat)
    requires Blanks(s, rest, least) && rest != [] && !IsSpace(rest[0])
    ensures rest == Spaces(s)
    ensures least > 0 ==> SomeSpaces(s) == Some(rest)
    decreases |s|
  {
    var n: nat :| least <= n <= |s| && AllSpace(s[..n]) && rest == s[n..];
    if n > 0 {
      assert IsSpace(s[..n][0]);
      assert s[1..][..n - 1] == s[..n][1..];
      assert s[n..] == s[1..][n - 1..];
      assert Blanks(s[1..], rest, 0);
      BlanksAreGreedy(s[1..], rest, 0);
    }
  }

  lemma SomeSpacesAreBlanks(s: ByteString)
    requires SomeSpaces(s).Some?
    ensures Blanks(s, SomeSpaces(s).value, 1)
  {
    SpacesAreBlanks(s[1..]);
    OneMoreBlank(s, Spaces(s[1..]));
  }

  lemma {:induction false} FirstQuote(s: ByteString, n: nat)
    requires n < |s| && s[n] == QUOTE && QUOTE !in s[..n]
    ensures UntilQuote(s) == Some((s[..n], s[n + 1..]))
    decreases n
  {
    if n > 0 {
      assert s[..n][0] == s[0];
      assert s[..n] == [s[0]] + s[1..][..n - 1];
      FirstQuote(s[1..], n - 1);
      assert s[1..][n..] == s[n + 1..];
    }
  }

  lemma {:induction false} QuoteFound(s: ByteString) returns (n: nat)
    requires UntilQuote(s).Some?
    ensures n < |s| && s[n] == QUOTE && QUOTE !in s[..n] && UntilQuote(s) == Some((s[..n], s[n + 1..]))
    decreases |s|
  {
    if s[0] == QUOTE {
      n := 0;
    } else {
      var k := QuoteFound(s[1..]);
      n := k + 1;
      assert s[..n] == [s[0]] + s[1..][..k];
      assert s[1..][k + 1..] == s[n + 1..];
    }
  }

  lemma UntilQuoteIsQuoted(s: ByteString, text: ByteString, rest: ByteString)
    ensures Quoted(s, text, rest) <==> UntilQuote(s) == Some((text, rest))
  {
    if Quoted(s, text, rest) {
      var n: nat :| n < |s| && s[n] == QUOTE && text == s[..n] && QUOTE !in text && rest == s[n + 1..];
      FirstQuote(s, n);
    }
    if UntilQuote(s) == Some((text, rest)) {
      var n := QuoteFound(s);
      assert text == s[..n];
    }
  }

  lemma AssignedIsAssigns(s: ByteString, text: ByteString, rest: ByteString)
    ensures Assigns(s, text, rest) <==> Assigned(s) == Some((text, rest))
  {
    hide Blanks, Quoted, UntilQuote, Spaces;
    if Assigns(s, text, rest) {
      var a, b :| Blanks(s, a, 0) && a != [] && a[0] == EQUALS && Blanks(a[1..], b, 0) && b != [] && b[0] == QUOTE
               && Quoted(b[1..], text, rest);
      BlanksAreGreedy(s, a, 0);
      BlanksAreGreedy(a[1..], b, 0);
      UntilQuoteIsQuoted(b[1..], text, rest);
    }
    if Assigned(s) == Some((text, rest)) {
      var a := Spaces(s);
      var b := Spaces(a[1..]);
      SpacesAreBlanks(s);
      SpacesAreBlanks(a[1..]);
      UntilQuoteIsQuoted(b[1..], text, rest);
    }
  }

  // A word never starts with a blank.
  lemma WordsStartWithLetters(s: ByteString, w: ByteString)
    requires Lower(w) && w != [] && Word(s, w).Some?
    ensures s != [] && !IsSpace(s[0])
  {}

  lemma PairIsFound(s: ByteString, key: ByteString, value: ByteString, rest: ByteString)
    requires PairMatches(s, key, value, rest)
    ensures MatchPair(s) == Some((key, value, rest))
  {
    hide Ascii, Word, Assigned, Assigns, SomeSpaces, Spaces;
    var s1 := Word(s, Ascii("key")).value;
    var s2, s3 :| Assigns(s1, key, s2) && Blanks(s2, s3, 1)
               && Word(s3, Ascii("value")).Some? && Assigns(Word(s3, Ascii("value")).value, value, rest);
    WordsStartWithLetters(s3, Ascii("value"));
    AssignedIsAssigns(s1, key, s2);
    BlanksAreGreedy(s2, s3, 1);
    AssignedIsAssigns(Word(s3, Ascii("value")).value, value, rest);
  }

  lemma FoundPairMatches(s: ByteString, key: ByteString, value: ByteString, rest: ByteString)
    requires MatchPair(s) == Some((key, value, rest))
    ensures PairMatches(s, key, value, rest)
  {
    hide Ascii, Word, Assigned, Assigns, SomeSpaces, Spaces;
    var s1 := Word(s, Ascii("key")).value;
    var s2 := Assigned(s1).value.1;
    AssignedIsAssigns(s1, key, s2);
    SomeSpacesAreBlanks(s2);
    var s3 := SomeSpaces(s2).value;
    AssignedIsAssigns(Word(s3, Ascii("value")).value, value, rest);
  }

  /** The greedy reader finds a match at the start of a text exactly when the expression has one,
      however its blanks are divided, and then with the only possible captures. */
  lemma MatchIsExact(s: ByteString, key: ByteString, value: ByteString, rest: ByteString)
    ensures ExpressionMatches(s, key, value, rest) <==> Match(s) == Some((key, value, rest))
  {
    hide Ascii, Word, MatchPair, PairMatches, Blanks;
    if ExpressionMatches(s, key, value, rest) {
      var s1, s2 :| WordThenBlanks(s, Ascii("store"), s1) && WordThenBlanks(s1, Ascii("set"), s2) && PairMatches(s2, key, value, rest);
      WordsStartWithLetters(s1, Ascii("set"));
      BlanksAreGreedy(Word(s, Ascii("store")).value, s1, 1);
      PairIsFound(s2, key, value, rest);
      PairStartsWithLetter(s2, key, value, rest);
      BlanksAreGreedy(Word(s1, Ascii("set")).value, s2, 1);
    }
    if Match(s) == Some((key, value, rest)) {
      SomeSpacesAreBlanks(Word(s, Ascii("store")).value);
      var s1 := SpacedWord(s, Ascii("store")).value;
      SomeSpacesAreBlanks(Word(s1, Ascii("set")).value);
      var s2 := SpacedWord(s1, Ascii("set")).value;
      FoundPairMatches(s2, key, value, rest);
      assert WordThenBlanks(s, Ascii("store"), s1) && WordThenBlanks(s1, Ascii("set"), s2);
    }
  }

  // No match starts before i.
  ghost predicate NoneBefore(s: ByteString, i: nat)
    requires i <= |s|
  {
    forall j: nat, key: ByteString, value: ByteString, rest: ByteString :: j < i ==> !ExpressionMatches(s[j..], key, value, rest)
  }

  /** The parser takes the leftmost match of the expression, writes its key, and goes on behind it;
      without a match it is done. */
  lemma {:induction false} ExtractionIsLeftmost(
      s: ByteString, writes: map<ByteString, ByteString>, i: nat, key: ByteString, value: ByteString, rest: ByteString)
    requires i <= |s| && NoneBefore(s, i)
    ensures ExpressionMatches(s[i..], key, value, rest) ==> Extracted(s, writes) == Extracted(rest, writes[key := value])
    ensures i == |s| ==> Extracted(s, writes) == writes
    decreases i
  {
    hide ExpressionMatches, Match;
    assert s[0..] == s;
    if i == 0 {
      MatchIsExact(s, key, value, rest);
      NothingMatchesNothing(key, value, rest);
    } else {
      if Match(s).Some? {
        var (k, v, r) := Match(s).value;
        MatchIsExact(s, k, v, r);
        assert false;
      }
      forall j: nat, k: ByteString, v: ByteString, r: ByteString | j < i - 1
        ensures !ExpressionMatches(s[1..][j..], k, v, r)
      {
        assert s[1..][j..] == s[j + 1..];
      }
      assert s[1..][i - 1..] == s[i..];
      ExtractionIsLeftmost(s[1..], writes, i - 1, key, value, rest);
    }
  }

  lemma NothingMatchesNothing(key: ByteString, value: ByteString, rest: ByteString)
    ensures !ExpressionMatches([], key, value, rest)
  {
    MatchIsExact([], key, value, rest);
    assert Word([], Ascii("store")) == None;
  }

  lemma PairStartsWithLetter(s: ByteString, key: ByteString, value: ByteString, rest: ByteString)
    requires PairMatches(s, key, value, rest)
    ensures s != [] && !IsSpace(s[0])
  {
    hide Assigns, Blanks, Word;
    WordsStartWithLetters(s, Ascii("key"));
  }

  // ------------------------------------------------------------------ reading one line back

  lemma {:induction false} LiteralWord(w: ByteString, rest: ByteString)
    requires Lower(w)
    ensures Word(w + rest, w) == Some(rest)
    decreases |w|
  {
    if w == [] {
      assert w + rest == rest;
    } else {
      assert (w + rest)[1..] == w[1..] + rest;
      LiteralWord(w[1..], rest);
    }
  }

  lemma {:induction false} QuotedText(text: ByteString, rest: ByteString)
    requires QUOTE !in text
    ensures UntilQuote(text + ([QUOTE] + rest)) == Some((text, rest))
    decreases |text|
  {
    if text == [] {
      assert text + ([QUOTE] + rest) == [QUOTE] + rest;
    } else {
      assert (text + ([QUOTE] + rest))[1..] == text[1..] + ([QUOTE] + rest);
      QuotedText(text[1..], rest);
      assert text == [text[0]] + text[1..];
    }
  }

  lemma OneBlank(rest: ByteString)
    requires rest != [] && !IsSpace(rest[0])
    ensures Spaces([SPACE] + rest) == rest && SomeSpaces([SPACE] + rest) == Some(rest)
  {
    assert ([SPACE] + rest)[1..] == rest;
  }

  // ` = "text"` followed by rest
  lemma PrintedAssignment(text: ByteString, rest: ByteString)
    requires QUOTE !in text
    ensures Assigned([SPACE] + ([EQUALS] + ([SPACE] + ([QUOTE] + (text + ([QUOTE] + rest)))))) == Some((text, rest))
  {
    var quoted := [QUOTE] + (text + ([QUOTE] + rest));
    OneBlank(quoted);
    OneBlank([EQUALS] + ([SPACE] + quoted));
    assert ([EQUALS] + ([SPACE] + quoted))[1..] == [SPACE] + quoted;
    assert quoted[1..] == text + ([QUOTE] + rest);
    QuotedText(text, rest);
  }

  function PrintedPair(key: ByteString, shown: ByteString, rest: ByteString): ByteString {
    var value := [SPACE] + ([EQUALS] + ([SPACE] + ([QUOTE] + (shown + ([QUOTE] + rest)))));
    var blank := [SPACE] + (Ascii("value") + value);
    Ascii("key") + ([SPACE] + ([EQUALS] + ([SPACE] + ([QUOTE] + (key + ([QUOTE] + blank))))))
  }

  lemma PrintedPairMatches(key: ByteString, shown: ByteString, rest: ByteString)
    requires QUOTE !in key && QUOTE !in shown
    ensures MatchPair(PrintedPair(key, shown, rest)) == Some((key, shown, rest))
  {
    hide Word, Spaces, Assigned;
    var value := [SPACE] + ([EQUALS] + ([SPACE] + ([QUOTE] + (shown + ([QUOTE] + rest)))));
    var word := Ascii("value") + value;
    assert word != [] && word[0] == 118;
    PrintedAssignment(shown, rest);
    LiteralWord(Ascii("value"), value);
    OneBlank(word);
    PrintedAssignment(key, [SPACE] + word);
    LiteralWord(Ascii("key"), [SPACE] + ([EQUALS] + ([SPACE] + ([QUOTE] + (key + ([QUOTE] + ([SPACE] + word)))))));
  }

  lemma PrintedLiterals()
    ensures Ascii("store set key = ")
         == Ascii("store") + ([SPACE] + (Ascii("set") + ([SPACE] + (Ascii("key") + ([SPACE] + ([EQUALS] + [SPACE]))))))
    ensures Ascii(" value = ") == [SPACE] + (Ascii("value") + ([SPACE] + ([EQUALS] + [SPACE])))
  {}

  lemma EqualsThen(x: ByteString)
    ensures ([SPACE] + ([EQUALS] + [SPACE])) + x == [SPACE] + ([EQUALS] + ([SPACE] + x))
  {}

  lemma PrintedMessage(key: ByteString, shown: ByteString, rest: ByteString)
    ensures SetMessage(key, shown) + rest
         == Ascii("store") + ([SPACE] + (Ascii("set") + ([SPACE] + PrintedPair(key, shown, rest))))
  {
    hide Ascii;
    PrintedLiterals();
    var sp, q, eq := [SPACE], [QUOTE], [SPACE] + ([EQUALS] + [SPACE]);
    var tail := Ascii(" value = ") + (q + (shown + q));
    var afterValue := q + (shown + (q + rest));
    ConcatAssociates(Ascii(" value = "), q + (shown + q), rest);
    ConcatAssociates(q, shown + q, rest);
    ConcatAssociates(shown, q, rest);
    ConcatAssociates(sp, Ascii("value") + eq, afterValue);
    ConcatAssociates(Ascii("value"), eq, afterValue);
    EqualsThen(afterValue);
    ConcatAssociates(Ascii("store set key = "), q + (key + (q + tail)), rest);
    ConcatAssociates(q, key + (q + tail), rest);
    ConcatAssociates(key, q + tail, rest);
    ConcatAssociates(q, tail, rest);
    var afterKey := q + (key + (q + (tail + rest)));
    ConcatAssociates(Ascii("store"), sp + (Ascii("set") + (sp + (Ascii("key") + eq))), afterKey);
    ConcatAssociates(sp, Ascii("set") + (sp + (Ascii("key") + eq)), afterKey);
    ConcatAssociates(Ascii("set"), sp + (Ascii("key") + eq), afterKey);
    ConcatAssociates(sp, Ascii("key") + eq, afterKey);
    ConcatAssociates(Ascii("key"), eq, afterKey);
    EqualsThen(afterKey);
  }

  lemma PrintedPairStarts(key: ByteString, shown: ByteString, rest: ByteString)
    ensures PrintedPair(key, shown, rest) != [] && PrintedPair(key, shown, rest)[0] == 107
  {
    assert Ascii("key")[0] == 107;
  }

  lemma MessageMatches(key: ByteString, shown: ByteString, rest: ByteString)
    requires QUOTE !in key && QUOTE !in shown
    ensures Match(SetMessage(key, shown) + rest) == Some((key, shown, rest))
  {
    hide MatchPair, PrintedPair, SetMessage, Word, Spaces;
    var pair := PrintedPair(key, shown, rest);
    PrintedPairStarts(key, shown, rest);
    PrintedMessage(key, shown, rest);
    PrintedPairMatches(key, shown, rest);
    OneBlank(pair);
    LiteralWord(Ascii("set"), [SPACE] + pair);
    var second := Ascii("set") + ([SPACE] + pair);
    assert second[0] == 115;
    OneBlank(second);
    LiteralWord(Ascii("store"), [SPACE] + second);
  }

  // ------------------------------------------------------------------ reading the dump back

  // No match can start at a byte that is no form of the letter s.
  predicate Inert(c: Byte) {
    c != 115 && c != 83 && c != 0xC5
  }

  lemma {:induction false} SkipsInert(x: ByteString, s: ByteString, writes: map<ByteString, ByteString>)
    requires forall i :: 0 <= i < |x| ==> Inert(x[i])
    ensures Extracted(x + s, writes) == Extracted(s, writes)
    decreases |x|
  {
    if x == [] {
      assert x + s == s;
    } else {
      assert Letter(x + s, 115) == None;
      assert Ascii("store")[0] == 115;
      assert (x + s)[1..] == x[1..] + s;
      SkipsInert(x[1..], s, writes);
    }
  }

  predicate Plain(c: Byte) {
    c != QUOTE && c >= 32 && c != 127
  }

  /** How a value is shown, byte by byte: plain bytes as they are, a quote as an apostrophe and a
      control as a blank, and three dots for everything behind the first 512. */
  lemma DisplayIsExact(value: ByteString, i: nat)
    ensures |Display(value)| == if |value| <= 512 then |value| else 515
    ensures i < |value| && i < 512 ==>
              Display(value)[i] == if value[i] == 34 then 39 else if value[i] < 32 || value[i] == 127 then 32 else value[i]
    ensures |value| > 512 ==> Display(value)[512..] == [46, 46, 46]
  {}

  /** So a value is shown whole exactly when it is plain and short, or three bytes over the limit and
      itself ends in the dots. */
  lemma DisplayIsLossless(value: ByteString)
    ensures Display(value) == value <==>
              && (forall i :: 0 <= i < |value| && i < 512 ==> Plain(value[i]))
              && (|value| <= 512 || value[512..] == [46, 46, 46])
  {
    if |value| > VALUE_DISPLAY {
      assert value == value[..VALUE_DISPLAY] + value[VALUE_DISPLAY..];
      assert Display(value)[VALUE_DISPLAY..] == [DOT, DOT, DOT];
      assert forall i :: 0 <= i < VALUE_DISPLAY ==> Display(value)[i] == SanitizedByte(value[i]);
    }
  }

  /** The line the parser's comment promises, to the byte. */
  lemma SampleLine()
    ensures SetLine(Ascii("demo.greeting"), Ascii("hello"))
         == Ascii("[flowcode:INFO] ") + Ascii("store set key = ") + [34] + Ascii("demo.greeting") + [34]
            + Ascii(" value = ") + [34] + Ascii("hello") + [34, 10]
  {
    hide Display;
    PlainText(Ascii("hello"));
  }

  lemma PlainText(value: ByteString)
    requires |value| <= 512 && forall i :: 0 <= i < |value| ==> Plain(value[i])
    ensures Display(value) == value
  {
    DisplayIsLossless(value);
  }

  lemma DisplayHasNoQuote(value: ByteString)
    ensures QUOTE !in Display(value)
  {}

  lemma LineIsRead(key: ByteString, value: ByteString, rest: ByteString, writes: map<ByteString, ByteString>)
    requires QUOTE !in key
    ensures Extracted(SetLine(key, value) + rest, writes) == Extracted(rest, writes[key := Display(value)])
  {
    hide Match, Display, SetMessage;
    var m, start := SetMessage(key, Display(value)), Ascii("[flowcode:INFO] ");
    DisplayHasNoQuote(value);
    ConcatAssociates(start, m + [NEWLINE], rest);
    ConcatAssociates(m, [NEWLINE], rest);
    SkipsInert(start, m + ([NEWLINE] + rest), writes);
    MessageMatches(key, Display(value), [NEWLINE] + rest);
    MessageIsNonEmpty(key, Display(value));
    SkipsInert([NEWLINE], rest, writes[key := Display(value)]);
  }

  lemma MessageIsNonEmpty(key: ByteString, shown: ByteString)
    ensures SetMessage(key, shown) != []
  {}

  // The keys a program's STORE instructions name.
  function StoreKeys(program: seq<Instruction>): set<ByteString> {
    set i | 0 <= i < |program| && StoreKey(program[i]).Some? :: StoreKey(program[i]).value
  }

  // The instruction stores under the key: a STORE of fewer than 256 bytes, whose argument up to its
  // first NUL is the key, or last_token without an argument; no key of the compiler's own.
  ghost predicate Names(ins: Instruction, key: ByteString) {
    && ins.opcode == 7 && |ins.arg| < 256
    && (if ins.arg == [] then key == Ascii("last_token") else UpToNul(ins.arg, key))
    && !(|key| >= 9 && key[..9] == Ascii("on_error:"))
    && !(|key| >= 11 && key[..11] == Ascii("__on_error."))
  }

  predicate UpToNul(arg: ByteString, key: ByteString) {
    && |key| <= |arg| && key == arg[..|key|]
    && (forall i :: 0 <= i < |key| ==> key[i] != 0)
    && (|key| == |arg| || arg[|key|] == 0)
  }

  ghost predicate NamedBy(program: seq<Instruction>, key: ByteString) {
    exists i :: 0 <= i < |program| && Names(program[i], key)
  }

  lemma {:induction false} CStringEndsAtNul(arg: ByteString)
    ensures UpToNul(arg, CString(arg))
    decreases |arg|
  {
    if arg != [] && arg[0] != 0 {
      var key, rest := CString(arg), CString(arg[1..]);
      CStringEndsAtNul(arg[1..]);
      assert key == [arg[0]] + rest;
      assert forall i :: 0 < i < |key| ==> key[i] == rest[i - 1] && arg[i] == arg[1..][i - 1];
    }
  }

  lemma OneEnd(arg: ByteString, a: ByteString, b: ByteString)
    requires UpToNul(arg, a) && UpToNul(arg, b)
    ensures |a| >= |b|
  {
    assert forall i :: 0 <= i < |b| ==> b[i] == arg[i];
  }

  lemma CStringIsUpToNul(arg: ByteString, key: ByteString)
    ensures CString(arg) == key <==> UpToNul(arg, key)
  {
    hide CString;
    CStringEndsAtNul(arg);
    if UpToNul(arg, key) {
      OneEnd(arg, key, CString(arg));
      OneEnd(arg, CString(arg), key);
    }
  }

  /** Which key an instruction stores under, spelled out. */
  lemma StoredKeysAreNamed(ins: Instruction, key: ByteString)
    ensures StoreKey(ins) == Some(key) <==> Names(ins, key)
  {
    hide CString;
    CStringIsUpToNul(ins.arg, key);
  }

  lemma StoreKeysAreNamed(program: seq<Instruction>, key: ByteString)
    ensures key in StoreKeys(program) <==> NamedBy(program, key)
  {
    hide StoreKey, Names;
    forall i | 0 <= i < |program|
      ensures StoreKey(program[i]) == Some(key) <==> Names(program[i], key)
    {
      StoredKeysAreNamed(program[i], key);
    }
  }

  // What the log should hold: every named key that the run left in the store, as displayed.
  function Logged(program: seq<Instruction>, state: Stored): map<ByteString, ByteString> {
    map k | k in StoreKeys(program) && k in state :: Display(state[k])
  }

  lemma LoggedFront(program: seq<Instruction>, state: Stored)
    requires program != []
    ensures var later := Logged(program[1..], state);
            Logged(program, state) ==
              match StoreKey(program[0])
              case Some(k) => if k in state then later[k := Display(state[k])] else later
              case None => later
  {
    forall k
      ensures k in StoreKeys(program) <==> StoreKey(program[0]) == Some(k) || k in StoreKeys(program[1..])
    {
      if k in StoreKeys(program) {
        var i :| 0 <= i < |program| && StoreKey(program[i]) == Some(k);
        assert i > 0 ==> program[1..][i - 1] == program[i];
      }
      if k in StoreKeys(program[1..]) {
        var i :| 0 <= i < |program[1..]| && StoreKey(program[1..][i]) == Some(k);
        assert program[i + 1] == program[1..][i];
      }
    }
  }

  ghost predicate QuoteFree(m: map<ByteString, ByteString>) {
    forall k <- m :: QUOTE !in k
  }

  lemma NothingExtracted(writes: map<ByteString, ByteString>)
    ensures Extracted([], writes) == writes
  {}

  lemma OverrideOnce(m: map<ByteString, ByteString>, later: map<ByteString, ByteString>, k: ByteString, v: ByteString)
    requires k in later ==> later[k] == v
    ensures m[k := v] + later == m + later[k := v]
  {}

  // Even past the table's capacity a key is only ever printed with its final value.
  lemma {:induction false} DumpIsRead(program: seq<Instruction>, state: Stored, seen: seq<ByteString>, writes: map<ByteString, ByteString>)
    requires QuoteFree(Logged(program, state))
    requires forall k <- seen :: k in state ==> k in writes && writes[k] == Display(state[k])
    ensures Extracted(Dumped(program, state, seen), writes) == writes + Logged(program, state)
    decreases |program|
  {
    hide Display, SetLine, StoreKey, Match, Extracted;
    NothingExtracted(writes);
    if program == [] {
      assert Logged(program, state) == map[];
    } else {
      LoggedFront(program, state);
      var later := program[1..];
      match StoreKey(program[0])
      case None =>
        DumpIsRead(later, state, seen, writes);
      case Some(key) =>
        if key in seen {
          DumpIsRead(later, state, seen, writes);
        } else {
          var seen' := if |seen| < SEEN_MAX then seen + [key] else seen;
          if key in state {
            assert key in Logged(program, state);
            var writes' := writes[key := Display(state[key])];
            LineIsRead(key, state[key], Dumped(later, state, seen'), writes);
            DumpIsRead(later, state, seen', writes');
            OverrideOnce(writes, Logged(later, state), key, Display(state[key]));
          } else {
            assert [] + Dumped(later, state, seen') == Dumped(later, state, seen');
            DumpIsRead(later, state, seen', writes);
          }
        }
    }
  }

  // Earlier output in which no form of the word `store` occurs.
  ghost predicate StoreFree(p: ByteString) {
    forall i :: 0 <= i <= |p| ==> Word(p[i..], Ascii("store")) == None
  }

  lemma {:induction false} WordEndsBeforeBracket(x: ByteString, d: ByteString, w: ByteString)
    requires Lower(w) && (d == [] || d[0] == BRACKET)
    requires Word(x + d, w).Some?
    ensures Word(x, w).Some?
    decreases |w|
  {
    if w != [] {
      var s := x + d;
      if s[0] == w[0] || s[0] == w[0] - 32 {
        assert x != [] && s[1..] == x[1..] + d;
        WordEndsBeforeBracket(x[1..], d, w[1..]);
      } else if w[0] == 115 {
        assert s[..2] == [0xC5, 0xBF];
        assert s[0] == 0xC5 && s[1] == 0xBF;
        assert |x| >= 2 && x[..2] == s[..2] && s[2..] == x[2..] + d;
        WordEndsBeforeBracket(x[2..], d, w[1..]);
      } else {
        assert s[..3] == [0xE2, 0x84, 0xAA];
        assert s[0] == 0xE2 && s[1] == 0x84 && s[2] == 0xAA;
        assert |x| >= 3 && x[..3] == s[..3] && s[3..] == x[3..] + d;
        WordEndsBeforeBracket(x[3..], d, w[1..]);
      }
    }
  }

  lemma {:induction false} EarlierOutputIsIgnored(p: ByteString, d: ByteString, writes: map<ByteString, ByteString>)
    requires StoreFree(p) && (d == [] || d[0] == BRACKET)
    ensures Extracted(p + d, writes) == Extracted(d, writes)
    decreases |p|
  {
    if p == [] {
      assert p + d == d;
    } else {
      assert p[0..] == p;
      if Word(p + d, Ascii("store")).Some? {
        WordEndsBeforeBracket(p, d, Ascii("store"));
      }
      assert Match(p + d) == None;
      forall i | 0 <= i <= |p[1..]|
        ensures Word(p[1..][i..], Ascii("store")) == None
      {
        assert p[1..][i..] == p[i + 1..];
      }
      assert (p + d)[1..] == p[1..] + d;
      EarlierOutputIsIgnored(p[1..], d, writes);
    }
  }

  lemma SetLineStartsWithBracket(key: ByteString, value: ByteString)
    ensures SetLine(key, value) != [] && SetLine(key, value)[0] == BRACKET
  {
    hide SetMessage, Display;
    assert Ascii("[flowcode:INFO] ")[0] == BRACKET;
  }

  lemma {:induction false} DumpStartsWithBracket(program: seq<Instruction>, state: Stored, seen: seq<ByteString>)
    ensures var d := Dumped(program, state, seen); d == [] || d[0] == BRACKET
    decreases |program|
  {
    hide SetLine, StoreKey;
    if program != [] && StoreKey(program[0]).Some? {
      var key := StoreKey(program[0]).value;
      DumpStartsWithBracket(program[1..], state, if key in seen || |seen| >= SEEN_MAX then seen else seen + [key]);
      if key in state {
        SetLineStartsWithBracket(key, state[key]);
      }
    } else if program != [] {
      DumpStartsWithBracket(program[1..], state, seen);
    }
  }

  lemma {:induction false} ReadKeysAreQuoteFree(s: ByteString, writes: map<ByteString, ByteString>)
    requires QuoteFree(writes)
    ensures QuoteFree(Extracted(s, writes))
    decreases |s|
  {
    if s != [] {
      if Match(s).Some? {
        var (key, value, rest) := Match(s).value;
        MatchShrinks(s);
        ReadKeysAreQuoteFree(rest, writes[key := value]);
      } else {
        ReadKeysAreQuoteFree(s[1..], writes);
      }
    }
  }

  // The log holds exactly the named keys found in the store, each with its displayed final value.
  ghost predicate HoldsTheStored(out: map<ByteString, ByteString>, program: seq<Instruction>, state: Stored) {
    && (forall k: ByteString :: k in out <==> NamedBy(program, k) && k in state)
    && (forall k <- out :: k in state && out[k] == Display(state[k]))
  }

  ghost predicate NamesWithoutQuotes(program: seq<Instruction>, state: Stored) {
    forall k: ByteString :: NamedBy(program, k) && k in state ==> QUOTE !in k
  }

  lemma LoggedHoldsTheStored(out: map<ByteString, ByteString>, program: seq<Instruction>, state: Stored)
    ensures out == Logged(program, state) <==> HoldsTheStored(out, program, state)
    ensures QuoteFree(Logged(program, state)) <==> NamesWithoutQuotes(program, state)
  {
    hide StoreKeys, NamedBy, Display;
    forall k: ByteString
      ensures k in Logged(program, state) <==> NamedBy(program, k) && k in state
    {
      StoreKeysAreNamed(program, k);
    }
    if HoldsTheStored(out, program, state) {
      assert out.Keys == Logged(program, state).Keys;
    }
  }

  lemma LoggedIsRead(before: ByteString, program: seq<Instruction>, state: Stored)
    requires StoreFree(before)
    ensures Extracted(before + Dumped(program, state, []), map[]) == Logged(program, state) <==> QuoteFree(Logged(program, state))
  {
    hide Extracted, Dumped, Logged, StoreFree;
    DumpStartsWithBracket(program, state, []);
    EarlierOutputIsIgnored(before, Dumped(program, state, []), map[]);
    if QuoteFree(Logged(program, state)) {
      DumpIsRead(program, state, [], map[]);
      assert map[] + Logged(program, state) == Logged(program, state);
    }
    ReadKeysAreQuoteFree(Dumped(program, state, []), map[]);
  }

  /** Behind any output free of the word `store`, the parser gets out of a dump exactly the named,
      non-synthetic, short keys the run left in the store, each with its displayed final value,
      for precisely the dumps whose keys hold no quote. */
  lemma TraceRoundTrip(before: ByteString, program: seq<Instruction>, state: Stored)
    requires StoreFree(before)
    ensures HoldsTheStored(Extracted(before + Dumped(program, state, []), map[]), program, state) <==> NamesWithoutQuotes(program, state)
  {
    hide Extracted, Dumped, Logged, StoreFree, HoldsTheStored, NamesWithoutQuotes, QuoteFree;
    LoggedIsRead(before, program, state);
    LoggedHoldsTheStored(Extracted(before + Dumped(program, state, []), map[]), program, state);
  }
}
