/**
 * The tokenizer of src/tokenize.rs: a character-level state machine that turns
 * one input line into shell words. Backslash escapes (outside single quotes),
 * single and double quotes, whitespace separation and the redirection
 * operators `>`, `>>`, `N>`, `N>>` are recognised; `|` is an ordinary character.
 *
 * `Run` is the state machine as a function over the rest of the input;
 * `Tokenize` is the loop of the source, proved to compute `Lex`.
 */
module Tokenize {
  import opened Text

  /** The state between two characters: the words pushed so far, the pending word and the two quote flags. */
  datatype Lexer = Lexer(tokens: seq<string>, current: string, inSingle: bool, inDouble: bool)

  const START: Lexer := Lexer([], [], false, false)

  /** End of input: a non-empty pending word is pushed. */
  function Flush(st: Lexer): seq<string> {
    if st.current == [] then st.tokens else st.tokens + [st.current]
  }

  /** The pending word ends in an ASCII digit, so it becomes the operator's prefix. */
  predicate HasFd(current: string) {
    current != [] && IsAsciiDigit(current[|current| - 1])
  }

  /**
   * One transition of the machine: a character (two for an escape or `>>`) is
   * consumed from the front of `rest`.
   */
  function Step(st: Lexer, rest: string): (next: (Lexer, string))
    requires rest != []
    ensures |next.1| < |rest|
  {
    var c := rest[0];
    if c == '\\' && !st.inSingle then
      if |rest| >= 2 then (st.(current := st.current + [rest[1]]), rest[2..])
      else (st, rest[1..])
    else if c == '\'' && !st.inDouble then
      (st.(inSingle := !st.inSingle), rest[1..])
    else if c == '"' && !st.inSingle then
      (st.(inDouble := !st.inDouble), rest[1..])
    else if c == '>' && !st.inSingle && !st.inDouble then
      var hasFd := HasFd(st.current);
      var doubled := |rest| >= 2 && rest[1] == '>';
      var op := (if hasFd then st.current else []) + (if doubled then ">>" else ">");
      var word := if !hasFd && st.current != [] then [st.current] else [];
      (Lexer(st.tokens + word + [op], [], st.inSingle, st.inDouble), rest[if doubled then 2 else 1..])
    else if IsWhitespace(c) && !st.inSingle && !st.inDouble then
      (st.(tokens := Flush(st), current := []), rest[1..])
    else
      (st.(current := st.current + [c]), rest[1..])
  }

  /** The tokens the machine emits from state `st` on the remaining input `rest`. */
  function Run(st: Lexer, rest: string): seq<string>
    decreases |rest|
  {
    if rest == [] then Flush(st)
    else
      var next := Step(st, rest);
      Run(next.0, next.1)
  }

  /** The tokens of a whole input line. */
  function Lex(input: string): seq<string> {
    Run(START, input)
  }

  predicate AllNonEmpty(ts: seq<string>) {
    forall k :: 0 <= k < |ts| ==> ts[k] != []
  }

  /** `tokenize` (src/tokenize.rs:3-59), the loop over a peekable character iterator. */
  method Tokenize(input: string) returns (tokens: seq<string>)
    ensures tokens == Lex(input)
    ensures AllNonEmpty(tokens)
  {
    tokens := [];
    var current: string := [];
    var inSingle := false;
    var inDouble := false;
    var i := 0;
    while i < |input|
      invariant 0 <= i <= |input|
      invariant Run(Lexer(tokens, current, inSingle, inDouble), input[i..]) == Lex(input)
      decreases |input| - i
    {
      var c := input[i];
      ghost var rest := input[i..];
      ghost var st0 := Lexer(tokens, current, inSingle, inDouble);
      assert rest[0] == c;
      i := i + 1;
      if c == '\\' && !inSingle {
        if i < |input| {
          assert rest[1] == input[i] && rest[2..] == input[i + 1..];
          current := current + [input[i]];
          i := i + 1;
        } else {
          assert rest[1..] == input[i..];
        }
        assert Run(Lexer(tokens, current, inSingle, inDouble), input[i..]) == Run(st0, rest);
      } else if c == '\'' && !inDouble {
        assert rest[1..] == input[i..];
        inSingle := !inSingle;
      } else if c == '"' && !inSingle {
        assert rest[1..] == input[i..];
        inDouble := !inDouble;
      } else if c == '>' && !inSingle && !inDouble {
        ghost var old_tokens, old_current := tokens, current;
        var redirectToken: string := [];
        var hasFd := current != [] && IsAsciiDigit(current[|current| - 1]);
        assert hasFd == HasFd(current);
        if hasFd {
          redirectToken := current;
          current := [];
        }
        redirectToken := redirectToken + [c];
        if i < |input| && input[i] == '>' {
          assert rest[1] == input[i] && rest[2..] == input[i + 1..];
          i := i + 1;
          redirectToken := redirectToken + ['>'];
          assert redirectToken == (if hasFd then old_current else []) + ">>";
        } else {
          assert rest[1..] == input[i..];
          assert redirectToken == (if hasFd then old_current else []) + ">";
        }
        ghost var word := if !hasFd && current != [] then [current] else [];
        if !hasFd && current != [] {
          tokens := tokens + [current];
          current := [];
        }
        assert !inSingle && !inDouble;
        tokens := tokens + [redirectToken];
        assert tokens == old_tokens + word + [redirectToken];
        assert Run(Lexer(tokens, current, inSingle, inDouble), input[i..]) == Run(st0, rest);
      } else if IsWhitespace(c) && !inSingle && !inDouble {
        assert rest[1..] == input[i..];
        if current != [] {
          tokens := tokens + [current];
          current := [];
        }
      } else {
        assert rest[1..] == input[i..];
        current := current + [c];
      }
    }
    if current != [] {
      tokens := tokens + [current];
    }
    LexTokensNonEmpty(input);
  }

  // ---------------------------------------------------------------------------
  // Every emitted token is non-empty

  lemma StepTokensNonEmpty(st: Lexer, rest: string)
    requires rest != [] && AllNonEmpty(st.tokens)
    ensures AllNonEmpty(Step(st, rest).0.tokens)
  {
  }

  lemma {:induction false} RunTokensNonEmpty(st: Lexer, rest: string)
    requires AllNonEmpty(st.tokens)
    ensures AllNonEmpty(Run(st, rest))
    decreases |rest|
  {
    if rest != [] {
      var next := Step(st, rest);
      StepTokensNonEmpty(st, rest);
      RunTokensNonEmpty(next.0, next.1);
    }
  }

  /** No token of any line is the empty string. */
  lemma LexTokensNonEmpty(input: string)
    ensures AllNonEmpty(Lex(input))
  {
    RunTokensNonEmpty(START, input);
  }

  // ---------------------------------------------------------------------------
  // Without escapes, quotes and `>`, tokenizing is splitting on whitespace

  /** A line with none of the characters the tokenizer treats specially (other than whitespace). */
  predicate Plain(s: string) {
    forall i :: 0 <= i < |s| ==> s[i] != '\\' && s[i] != '\'' && s[i] != '"' && s[i] != '>'
  }

  /** Outside quotes, a character that is not special and not whitespace joins the pending word. */
  lemma RunPlainChar(st: Lexer, c: char, rest: string)
    requires !st.inSingle && !st.inDouble && Plain([c]) && !IsWhitespace(c)
    ensures Run(st, [c] + rest) == Run(st.(current := st.current + [c]), rest)
  {
    assert ([c] + rest)[0] == c && ([c] + rest)[1..] == rest;
  }

  /** Outside quotes, whitespace pushes the pending word, if any. */
  lemma RunWhitespaceChar(st: Lexer, c: char, rest: string)
    requires !st.inSingle && !st.inDouble && IsWhitespace(c)
    ensures Run(st, [c] + rest) == Run(st.(tokens := Flush(st), current := []), rest)
  {
    assert ([c] + rest)[0] == c && ([c] + rest)[1..] == rest;
  }

  lemma {:induction false} RunPlain(tokens: seq<string>, current: string, s: string)
    requires Plain(s)
    ensures var fields := SplitWhere(s, IsWhitespace);
            Run(Lexer(tokens, current, false, false), s)
              == tokens + NonEmpty([current + fields[0]] + fields[1..])
    decreases |s|
  {
    var st := Lexer(tokens, current, false, false);
    var fields := SplitWhere(s, IsWhitespace);
    if s == [] {
      assert fields == [[]];
      assert current + [] == current;
      assert NonEmpty([current]) == if current == [] then [] else [current];
    } else {
      var c := s[0];
      var tail := s[1..];
      assert s == [c] + tail;
      var rest := SplitWhere(tail, IsWhitespace);
      assert Plain(tail) && Plain([c]);
      if IsWhitespace(c) {
        RunWhitespaceChar(st, c, tail);
        RunPlain(Flush(st), [], tail);
        PlainWhitespaceStep(tokens, current, c, tail);
      } else {
        RunPlainChar(st, c, tail);
        RunPlain(tokens, current + [c], tail);
        assert fields == [[c] + rest[0]] + rest[1..];
        assert current + fields[0] == (current + [c]) + rest[0];
      }
    }
  }

  /** The bookkeeping of `RunPlain` at a whitespace character. */
  lemma PlainWhitespaceStep(tokens: seq<string>, current: string, c: char, tail: string)
    requires IsWhitespace(c)
    ensures var fields := SplitWhere([c] + tail, IsWhitespace);
            var rest := SplitWhere(tail, IsWhitespace);
            Flush(Lexer(tokens, current, false, false)) + NonEmpty([[] + rest[0]] + rest[1..])
              == tokens + NonEmpty([current + fields[0]] + fields[1..])
  {
    var fields := SplitWhere([c] + tail, IsWhitespace);
    var rest := SplitWhere(tail, IsWhitespace);
    assert ([c] + tail)[0] == c && ([c] + tail)[1..] == tail;
    assert fields == [[]] + rest;
    assert fields[0] == [] && fields[1..] == rest;
    assert current + [] == current;
    assert [current + fields[0]] + fields[1..] == [current] + rest;
    NonEmptyAppend([current], rest);
    assert [] + rest[0] == rest[0];
    assert [[] + rest[0]] + rest[1..] == rest;
  }

  /** For a line without `\`, `'`, `"` or `>`, the tokens are the whitespace-separated words. */
  lemma LexPlainIsSplitWhitespace(s: string)
    requires Plain(s)
    ensures Lex(s) == SplitWhitespace(s)
  {
    var fields := SplitWhere(s, IsWhitespace);
    RunPlain([], [], s);
    assert [] + fields[0] == fields[0];
    assert [[] + fields[0]] + fields[1..] == fields;
    assert [] + NonEmpty(fields) == NonEmpty(fields);
  }

  // ---------------------------------------------------------------------------
  // Quotes are removed, and what they enclose is kept verbatim

  lemma {:induction false} RunInSingleQuotes(st: Lexer, s: string, rest: string)
    requires st.inSingle && !st.inDouble
    requires forall i :: 0 <= i < |s| ==> s[i] != '\''
    ensures Run(st, s + "'" + rest) == Run(st.(current := st.current + s, inSingle := false), rest)
    decreases |s|
  {
    if s == [] {
      assert (s + "'" + rest)[1..] == rest;
      assert st.current + s == st.current;
    } else {
      assert (s + "'" + rest)[0] == s[0];
      assert (s + "'" + rest)[1..] == s[1..] + "'" + rest;
      RunInSingleQuotes(st.(current := st.current + [s[0]]), s[1..], rest);
      assert st.current + [s[0]] + s[1..] == st.current + s;
    }
  }

  /**
   * Text between single quotes becomes one word exactly as written: whitespace,
   * `"`, `\` and `>` inside it are literal, and the quotes themselves are dropped.
   */
  lemma LexSingleQuoted(s: string)
    requires forall i :: 0 <= i < |s| ==> s[i] != '\''
    ensures Lex("'" + s + "'") == if s == [] then [] else [s]
  {
    var st := START.(inSingle := true);
    assert ("'" + s + "'")[1..] == s + "'" + [];
    RunInSingleQuotes(st, s, []);
    assert [] + s == s;
  }

  lemma {:induction false} RunInDoubleQuotes(st: Lexer, s: string, rest: string)
    requires st.inDouble && !st.inSingle
    requires forall i :: 0 <= i < |s| ==> s[i] != '"' && s[i] != '\\'
    ensures Run(st, s + "\"" + rest) == Run(st.(current := st.current + s, inDouble := false), rest)
    decreases |s|
  {
    if s == [] {
      assert (s + "\"" + rest)[1..] == rest;
      assert st.current + s == st.current;
    } else {
      assert (s + "\"" + rest)[0] == s[0];
      assert (s + "\"" + rest)[1..] == s[1..] + "\"" + rest;
      RunInDoubleQuotes(st.(current := st.current + [s[0]]), s[1..], rest);
      assert st.current + [s[0]] + s[1..] == st.current + s;
    }
  }

  /**
   * Text without `"` or `\` between double quotes becomes one word exactly as
   * written: whitespace, `'` and `>` inside it are literal.
   */
  lemma LexDoubleQuoted(s: string)
    requires forall i :: 0 <= i < |s| ==> s[i] != '"' && s[i] != '\\'
    ensures Lex("\"" + s + "\"") == if s == [] then [] else [s]
  {
    var st := START.(inDouble := true);
    assert ("\"" + s + "\"")[1..] == s + "\"" + [];
    RunInDoubleQuotes(st, s, []);
    assert [] + s == s;
  }

  // ---------------------------------------------------------------------------
  // A backslash outside single quotes takes the next character literally

  /** Every character of `s` preceded by a backslash. */
  function Escape(s: string): (r: string)
    ensures |r| == 2 * |s|
    decreases |s|
  {
    if s == [] then [] else ['\\', s[0]] + Escape(s[1..])
  }

  lemma {:induction false} RunEscaped(st: Lexer, s: string)
    requires !st.inSingle
    ensures Run(st, Escape(s)) == Run(st.(current := st.current + s), [])
    decreases |s|
  {
    if s == [] {
      assert st.current + s == st.current;
    } else {
      var e := Escape(s);
      assert e[0] == '\\' && e[1] == s[0] && e[2..] == Escape(s[1..]);
      RunEscaped(st.(current := st.current + [s[0]]), s[1..]);
      assert st.current + [s[0]] + s[1..] == st.current + s;
    }
  }

  /**
   * Escaping every character of a word, whatever the characters are (quotes,
   * whitespace, `>`, backslashes), makes the tokenizer give back that word.
   */
  lemma LexEscapedRoundTrip(s: string)
    requires s != []
    ensures Lex(Escape(s)) == [s]
  {
    RunEscaped(START, s);
    assert [] + s == s;
    assert Flush(START.(current := s)) == [s];
  }

  /** Inside double quotes, too, a backslash takes any next character literally. */
  lemma LexEscapedInDoubleQuotes(s: string)
    requires s != []
    ensures Lex("\"" + Escape(s) + "\"") == [s]
  {
    var st := START.(inDouble := true);
    var line := "\"" + Escape(s) + "\"";
    assert line[1..] == Escape(s) + "\"";
    RunEscapedThen(st, s, "\"");
    assert "\""[0] == '"' && "\""[1..] == [];
    assert [] + s == s;
    assert Run(st.(current := s), "\"") == Run(START.(current := s), []);
  }

  lemma {:induction false} RunEscapedThen(st: Lexer, s: string, rest: string)
    requires !st.inSingle
    ensures Run(st, Escape(s) + rest) == Run(st.(current := st.current + s), rest)
    decreases |s|
  {
    if s == [] {
      assert st.current + s == st.current;
      assert Escape(s) + rest == rest;
    } else {
      var c := s[0];
      var more := Escape(s[1..]) + rest;
      assert Escape(s) + rest == ['\\', c] + more by {
        Associative(['\\', c], Escape(s[1..]), rest);
      }
      RunEscapedChar(st, c, more);
      RunEscapedThen(st.(current := st.current + [c]), s[1..], rest);
      assert (st.current + [c]) + s[1..] == st.current + s by {
        assert s == [c] + s[1..];
        Associative(st.current, [c], s[1..]);
      }
    }
  }

  /** A backslash outside single quotes and the character after it: that character joins the pending word. */
  lemma RunEscapedChar(st: Lexer, c: char, rest: string)
    requires !st.inSingle
    ensures Run(st, ['\\', c] + rest) == Run(st.(current := st.current + [c]), rest)
  {
    var line := ['\\', c] + rest;
    assert line[0] == '\\' && line[1] == c && line[2..] == rest;
  }

  /** Neither a backslash nor a single quote: the characters after which a final `\` is still an escape. */
  predicate NoEscapeOrSingleQuote(s: string) {
    forall i :: 0 <= i < |s| ==> s[i] != '\\' && s[i] != '\''
  }

  /**
   * A `\` appended to the input does not change the first transition: the
   * next state is the same, and the `\` stays at the end of what is left.
   */
  lemma StepBeforeBackslash(st: Lexer, s: string)
    requires !st.inSingle && s != [] && s[0] != '\\' && s[0] != '\''
    ensures Step(st, s + "\\").0 == Step(st, s).0
    ensures Step(st, s + "\\").1 == Step(st, s).1 + "\\"
    ensures Step(st, s).1 == s[1..] || (|s| >= 2 && Step(st, s).1 == s[2..])
  {
    var line := s + "\\";
    assert line[0] == s[0] && line[1..] == s[1..] + "\\";
    if |s| >= 2 {
      assert line[1] == s[1] && line[2..] == s[2..] + "\\";
    } else {
      assert line[1] == '\\';
    }
  }

  lemma {:induction false} RunTrailingBackslash(st: Lexer, s: string)
    requires !st.inSingle && NoEscapeOrSingleQuote(s)
    ensures Run(st, s + "\\") == Run(st, s)
    decreases |s|
  {
    if s == [] {
      var line := s + "\\";
      assert line == "\\" && line[1..] == [];
    } else {
      StepBeforeBackslash(st, s);
      var next := Step(st, s);
      assert (s + "\\")[0] == s[0];
      assert !next.0.inSingle;
      assert NoEscapeOrSingleQuote(next.1);
      RunTrailingBackslash(next.0, next.1);
    }
  }

  /**
   * A backslash at the very end of a line is dropped unless a single quote is
   * open: after quoted text, inside an open double quote or after an operator
   * alike, as long as the line holds no other `\` or `'`.
   */
  lemma TrailingBackslashDropped(s: string)
    requires NoEscapeOrSingleQuote(s)
    ensures Lex(s + "\\") == Lex(s)
  {
    RunTrailingBackslash(START, s);
  }

  /** Inside an open single quote, a final backslash is kept as a character of the word. */
  lemma TrailingBackslashInSingleQuote(s: string)
    requires forall i :: 0 <= i < |s| ==> s[i] != '\''
    ensures Lex("'" + s + "\\") == [s + "\\"]
  {
    var t := s + "\\";
    assert forall i :: 0 <= i < |t| ==> t[i] != '\'';
    var line := "'" + t;
    assert "'" + s + "\\" == line by {
      Associative("'", s, "\\");
    }
    assert line[0] == '\'' && line[1..] == t;
    assert Step(START, line) == (START.(inSingle := true), t);
    RunInSingleQuotedToEnd(START.(inSingle := true), t);
    assert [] + t == t;
  }

  /** An unclosed single quote: the rest of the line joins the pending word. */
  lemma {:induction false} RunInSingleQuotedToEnd(st: Lexer, s: string)
    requires st.inSingle && !st.inDouble
    requires forall i :: 0 <= i < |s| ==> s[i] != '\''
    ensures Run(st, s) == if st.current + s == [] then st.tokens else st.tokens + [st.current + s]
    decreases |s|
  {
    if s == [] {
      assert st.current + s == st.current;
    } else {
      RunInSingleQuotedToEnd(st.(current := st.current + [s[0]]), s[1..]);
      assert st.current + [s[0]] + s[1..] == st.current + s;
    }
  }

  /** Characters that outside quotes are simply appended to the pending word. */
  predicate WordChars(w: string) {
    Plain(w) && NoWhitespace(w)
  }

  lemma {:induction false} RunWord(st: Lexer, w: string, rest: string)
    requires !st.inSingle && !st.inDouble && WordChars(w)
    ensures Run(st, w + rest) == Run(st.(current := st.current + w), rest)
    decreases |w|
  {
    if w == [] {
      assert w + rest == rest && st.current + w == st.current;
    } else {
      assert (w + rest)[0] == w[0] && (w + rest)[1..] == w[1..] + rest;
      assert WordChars(w[1..]);
      RunWord(st.(current := st.current + [w[0]]), w[1..], rest);
      assert st.current + [w[0]] + w[1..] == st.current + w;
    }
  }

  lemma RunSpace(st: Lexer, rest: string)
    requires !st.inSingle && !st.inDouble
    ensures Run(st, " " + rest) == Run(st.(tokens := Flush(st), current := []), rest)
  {
    assert (" " + rest)[0] == ' ' && (" " + rest)[1..] == rest;
  }

  // ---------------------------------------------------------------------------
  // Redirection operators

  /**
   * What a `>` outside quotes pushes, given the pending word and the operator
   * text `gt` (`>` or `>>`).
   */
  function OperatorTokens(current: string, gt: string): seq<string> {
    if HasFd(current) then [current + gt]
    else if current == [] then [gt]
    else [current, gt]
  }

  /**
   * A `>` outside quotes emits an operator ending in `>` or `>>` (the second `>`
   * only when it follows at once). When the pending word ends in an ASCII digit
   * the whole pending word is the operator's prefix; otherwise the pending word,
   * if any, is emitted first.
   */
  lemma RedirectOperator(st: Lexer, rest: string)
    requires !st.inSingle && !st.inDouble
    ensures var doubled := rest != [] && rest[0] == '>';
            var gt := if doubled then ">>" else ">";
            var after := if doubled then rest[1..] else rest;
            Run(st, ">" + rest)
              == Run(Lexer(st.tokens + OperatorTokens(st.current, gt), [], false, false), after)
  {
    var line := ">" + rest;
    assert line[0] == '>' && line[1..] == rest;
    if rest != [] && rest[0] == '>' {
      assert line[2..] == rest[1..];
    }
    var gt := if rest != [] && rest[0] == '>' then ">>" else ">";
    if HasFd(st.current) {
      assert st.tokens + [] + [st.current + gt] == st.tokens + [st.current + gt];
    } else if st.current == [] {
      assert [] + gt == gt;
      assert st.tokens + [] + [[] + gt] == st.tokens + [gt];
    } else {
      assert [] + gt == gt;
      assert st.tokens + [st.current] + [[] + gt] == st.tokens + [st.current, gt];
    }
  }

  predicate Words(ws: seq<string>) {
    forall k :: 0 <= k < |ws| ==> ws[k] != [] && WordChars(ws[k])
  }

  lemma {:induction false} RunJoined(tokens: seq<string>, ws: seq<string>, rest: string)
    requires |ws| >= 1 && Words(ws)
    ensures Run(Lexer(tokens, [], false, false), Join(ws, " ") + rest)
              == Run(Lexer(tokens + ws[..|ws| - 1], ws[|ws| - 1], false, false), rest)
    decreases |ws|
  {
    var st := Lexer(tokens, [], false, false);
    if |ws| == 1 {
      RunWord(st, ws[0], rest);
      assert [] + ws[0] == ws[0];
      assert tokens + ws[..0] == tokens;
    } else {
      var tail := ws[1..];
      assert Words(tail);
      JoinFront(ws, " ", rest);
      RunWordThenSpace(tokens, ws[0], Join(tail, " ") + rest);
      RunJoined(tokens + [ws[0]], tail, rest);
      assert tokens + [ws[0]] + tail[..|tail| - 1] == tokens + ws[..|ws| - 1];
      assert tail[|tail| - 1] == ws[|ws| - 1];
    }
  }

  /** A word and a space between words: the word is pushed. */
  lemma RunWordThenSpace(tokens: seq<string>, w: string, rest: string)
    requires w != [] && WordChars(w)
    ensures Run(Lexer(tokens, [], false, false), w + (" " + rest)) == Run(Lexer(tokens + [w], [], false, false), rest)
  {
    var st := Lexer(tokens, [], false, false);
    RunWord(st, w, " " + rest);
    assert [] + w == w;
    RunSpace(Lexer(tokens, w, false, false), rest);
  }

  /** Words free of whitespace and special characters, joined by spaces, tokenize back to themselves. */
  lemma LexJoinedWords(ws: seq<string>)
    requires Words(ws)
    ensures Lex(Join(ws, " ")) == ws
  {
    if ws != [] {
      RunJoined([], ws, []);
      assert Join(ws, " ") + [] == Join(ws, " ");
      assert [] + ws[..|ws| - 1] + [ws[|ws| - 1]] == ws;
    }
  }

  /** Words joined by spaces and then one more space leave the machine between words. */
  lemma RunJoinedThenSpace(ws: seq<string>, rest: string)
    requires |ws| >= 1 && Words(ws)
    ensures Run(START, Join(ws, " ") + (" " + rest)) == Run(Lexer(ws, [], false, false), rest)
  {
    RunJoinedSpace([], ws, rest);
    assert [] + ws == ws;
  }

  lemma RunJoinedSpace(tokens: seq<string>, ws: seq<string>, rest: string)
    requires |ws| >= 1 && Words(ws)
    ensures Run(Lexer(tokens, [], false, false), Join(ws, " ") + (" " + rest))
              == Run(Lexer(tokens + ws, [], false, false), rest)
  {
    var n := |ws|;
    var st := Lexer(tokens + ws[..n - 1], ws[n - 1], false, false);
    RunJoined(tokens, ws, " " + rest);
    RunSpace(st, rest);
    FlushLast(tokens, ws);
  }

  /** The pending last word pushed after the others. */
  lemma FlushLast(tokens: seq<string>, ws: seq<string>)
    requires |ws| >= 1 && ws[|ws| - 1] != []
    ensures Flush(Lexer(tokens + ws[..|ws| - 1], ws[|ws| - 1], false, false)) == tokens + ws
  {
    var n := |ws|;
    assert ws == ws[..n - 1] + [ws[n - 1]];
    Associative(tokens, ws[..n - 1], [ws[n - 1]]);
  }

  /** A double-quoted word between words. */
  lemma RunQuotedWord(tokens: seq<string>, q: string)
    requires q != []
    requires forall i :: 0 <= i < |q| ==> q[i] != '"' && q[i] != '\\'
    ensures Run(Lexer(tokens, [], false, false), "\"" + (q + "\"")) == tokens + [q]
  {
    var inner := q + "\"" + [];
    var quoted := "\"" + (q + "\"");
    var s2 := Lexer(tokens, [], false, false);
    var s3 := s2.(inDouble := true);
    assert quoted[0] == '"' && quoted[1..] == inner;
    assert Run(s2, quoted) == Run(s3, inner);
    RunInDoubleQuotes(s3, q, []);
    assert [] + q == q;
    assert Run(s3, inner) == Run(Lexer(tokens, q, false, false), []);
  }

  /** Words followed by a double-quoted argument: the quoted text is one more word. */
  lemma LexWordsThenQuoted(ws: seq<string>, q: string)
    requires |ws| >= 1 && Words(ws) && q != []
    requires forall i :: 0 <= i < |q| ==> q[i] != '"' && q[i] != '\\'
    ensures Lex(Join(ws, " ") + (" " + ("\"" + (q + "\"")))) == ws + [q]
  {
    RunJoinedThenSpace(ws, "\"" + (q + "\""));
    RunQuotedWord(ws, q);
  }

  /** Words, then ` > `, then a file name: the operator is a token of its own. */
  lemma LexWordsRedirect(ws: seq<string>, f: string)
    requires |ws| >= 1 && Words(ws) && f != [] && WordChars(f)
    ensures Lex(Join(ws, " ") + " > " + f) == ws + [">", f]
  {
    assert Join(ws, " ") + " > " + f == Join(ws, " ") + (" " + (">" + (" " + f)));
    RunJoinedThenSpace(ws, ">" + (" " + f));
    RunRedirectToFile(ws, f);
  }

  lemma RunRedirectToFile(tokens: seq<string>, f: string)
    requires f != [] && WordChars(f)
    ensures Run(Lexer(tokens, [], false, false), ">" + (" " + f)) == tokens + [">", f]
  {
    var target := " " + f;
    var s2 := Lexer(tokens, [], false, false);
    var s3 := Lexer(tokens + [">"], [], false, false);
    assert Run(s2, ">" + target) == Run(s3, target) by {
      RedirectOperator(s2, target);
      assert target[0] == ' ';
      assert OperatorTokens([], ">") == [">"];
    }
    RunSpace(s3, f);
    assert s3.(tokens := Flush(s3), current := []) == s3;
    RunWordToEnd(tokens + [">"], f);
  }

  /**
   * A word glued to `>` and a file name. When the word ends in an ASCII digit
   * the whole word, not only the digit, becomes the operator's prefix
   * (`a1>f` gives `a1>`); otherwise the word is a token of its own.
   */
  lemma LexWordGluedRedirect(w: string, f: string)
    requires w != [] && WordChars(w) && f != [] && WordChars(f)
    ensures Lex(w + ">" + f) == if HasFd(w) then [w + ">", f] else [w, ">", f]
  {
    Associative(w, ">", f);
    RunWord(START, w, ">" + f);
    assert [] + w == w;
    RunRedirectWordFile(w, f);
  }

  /** A pending word, then `>` and a file name. */
  lemma RunRedirectWordFile(w: string, f: string)
    requires w != [] && f != [] && WordChars(f)
    ensures Run(Lexer([], w, false, false), ">" + f) == if HasFd(w) then [w + ">", f] else [w, ">", f]
  {
    var s1 := Lexer([], w, false, false);
    RedirectOperator(s1, f);
    assert f[0] != '>';
    var toks := OperatorTokens(w, ">");
    assert [] + toks == toks;
    RunWordToEnd(toks, f);
  }

  /** A last word after the words pushed so far. */
  lemma RunWordToEnd(tokens: seq<string>, f: string)
    requires f != [] && WordChars(f)
    ensures Run(Lexer(tokens, [], false, false), f) == tokens + [f]
  {
    RunWord(Lexer(tokens, [], false, false), f, []);
    assert f + [] == f && [] + f == f;
  }

  /** The first unit test of src/tokenize.rs (lines 65-68). */
  lemma TestSimpleCommand()
    ensures Lex("echo hello") == ["echo", "hello"]
  {
    assert WordChars("echo") && WordChars("hello");
    LexJoinedWords(["echo", "hello"]);
    assert Join(["echo", "hello"], " ") == "echo hello";
  }

  /** The second unit test of src/tokenize.rs (lines 70-73). */
  lemma TestQuotedString()
    ensures Lex("echo \"hello world\"") == ["echo", "hello world"]
  {
    assert WordChars("echo");
    assert Join(["echo"], " ") == "echo";
    var quoted := "\"" + ("hello world" + "\"");
    assert quoted == "\"hello world\"";
    assert "echo" + (" " + quoted) == "echo \"hello world\"";
    LexWordsThenQuoted(["echo"], "hello world");
    assert ["echo"] + ["hello world"] == ["echo", "hello world"];
  }

  /** The third unit test of src/tokenize.rs (lines 75-78). */
  lemma TestRedirection()
    ensures Lex("echo hi > file.txt") == ["echo", "hi", ">", "file.txt"]
  {
    var ws := ["echo", "hi"];
    assert WordChars("echo") && WordChars("hi") && WordChars("file.txt");
    assert Join(ws, " ") == "echo hi" by {
      assert ws[1..] == ["hi"];
    }
    assert "echo hi" + " > " + "file.txt" == "echo hi > file.txt";
    LexWordsRedirect(ws, "file.txt");
  }

  /** `a1>f`: a pending word ending in a digit, all of it, becomes the operator's prefix. */
  lemma TestDigitPrefix()
    ensures Lex("a1>f") == ["a1>", "f"]
  {
    assert WordChars("a1") && WordChars("f") && HasFd("a1");
    assert "a1" + ">" == "a1>";
    assert "a1" + ">" + "f" == "a1>f";
    LexWordGluedRedirect("a1", "f");
  }

  /** `2>err`: the stderr operator is a digit glued to `>`. */
  lemma TestStderrOperator()
    ensures Lex("2>err") == ["2>", "err"]
  {
    assert WordChars("2") && WordChars("err") && HasFd("2");
    assert "2" + ">" == "2>";
    assert "2" + ">" + "err" == "2>err";
    LexWordGluedRedirect("2", "err");
  }

  /** `ls>out`: a pending word without a trailing digit is a token before the plain operator. */
  lemma TestWordBeforeOperator()
    ensures Lex("ls>out") == ["ls", ">", "out"]
  {
    assert WordChars("ls") && WordChars("out") && !HasFd("ls");
    LexWordGluedRedirect("ls", "out");
    assert "ls" + ">" + "out" == "ls>out";
  }

}
