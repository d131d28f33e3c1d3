/**
 * The redirection layer of src/redirection.rs: `parse_command` splits the
 * tokens of a line into arguments and at most one stdout and one stderr
 * redirection, and `handle_output` decides where a builtin's result goes.
 *
 * `Parse` is a declarative reading of the token list: it is cut into items
 * (a word, or an operator with the token after it as its target), the
 * arguments are the words and a stream's redirection is that of its last
 * operator. `ParseCommand` is the cursor loop of the source, proved to
 * compute `Parse`.
 *
 * `HandleOutput` returns the output actions in the order the source performs
 * them; `Apply` gives their effect on the files, so that the behaviour of
 * `write_to_file` and `create_file` can be stated without real I/O.
 */
module Redirection {
  import opened Wrappers
  import Commands
  import Tokenize
  import Text

  /** `Redirection` (src/redirection.rs:5-8). */
  datatype Redirection = Redirection(file: string, append: bool)

  /** `ParsedCommand` (src/redirection.rs:12-16). */
  datatype ParsedCommand = ParsedCommand(
    args: seq<string>,
    redirectStdout: Option<Redirection>,
    redirectStderr: Option<Redirection>)

  datatype Stream = Stdout | Stderr

  /** What an operator token redirects, and whether it appends. */
  datatype Operator = Operator(stream: Stream, append: bool)

  /** The six operator tokens `parse_command` recognises. */
  function OperatorOf(t: string): (op: Option<Operator>)
    ensures op.Some? <==> t in [">", "1>", ">>", "1>>", "2>", "2>>"]
  {
    match t
    case ">" => Some(Operator(Stdout, false))
    case "1>" => Some(Operator(Stdout, false))
    case ">>" => Some(Operator(Stdout, true))
    case "1>>" => Some(Operator(Stdout, true))
    case "2>" => Some(Operator(Stderr, false))
    case "2>>" => Some(Operator(Stderr, true))
    case _ => None
  }

  predicate IsOperator(t: string) {
    OperatorOf(t).Some?
  }

  /** One piece of a command line: a word, or an operator and its target (none at the end of the line). */
  datatype Item = Word(word: string) | Redirect(op: Operator, target: Option<string>)

  /** The token list cut into items, from the left: an operator always takes the next token. */
  function Items(tokens: seq<string>): (items: seq<Item>)
    ensures |items| <= |tokens|
    decreases |tokens|
  {
    if tokens == [] then []
    else
      match OperatorOf(tokens[0])
      case None => [Word(tokens[0])] + Items(tokens[1..])
      case Some(op) =>
        if |tokens| == 1 then [Redirect(op, None)]
        else [Redirect(op, Some(tokens[1]))] + Items(tokens[2..])
  }

  /** The words among the items, in order. */
  function ArgsOf(items: seq<Item>): seq<string>
    decreases |items|
  {
    if items == [] then []
    else
      var last := items[|items| - 1];
      ArgsOf(items[..|items| - 1]) + (if last.Word? then [last.word] else [])
  }

  predicate RedirectsTo(it: Item, s: Stream) {
    it.Redirect? && it.op.stream == s
  }

  /** What a redirection item says about its stream: the target and mode, or none for a missing target. */
  function RedirectionOf(it: Item): Option<Redirection>
    requires it.Redirect?
  {
    match it.target
    case None => None
    case Some(f) => Some(Redirection(f, it.op.append))
  }

  /** The redirection of stream `s` set by the last of the items that redirects it. */
  function Final(items: seq<Item>, s: Stream): Option<Redirection>
    decreases |items|
  {
    if items == [] then None
    else
      var last := items[|items| - 1];
      if RedirectsTo(last, s) then RedirectionOf(last) else Final(items[..|items| - 1], s)
  }

  /** The command `parse_command` builds from `tokens`. */
  function Parse(tokens: seq<string>): ParsedCommand {
    var items := Items(tokens);
    ParsedCommand(ArgsOf(items), Final(items, Stdout), Final(items, Stderr))
  }

  function Rest(tokens: seq<string>, i: nat): seq<string> {
    if i <= |tokens| then tokens[i..] else []
  }

  /** The item that starts at token `i`: an operator and the token after it, or a word. */
  function ItemAt(tokens: seq<string>, i: nat): Item
    requires i < |tokens|
  {
    match OperatorOf(tokens[i])
    case None => Word(tokens[i])
    case Some(op) => Redirect(op, if i + 1 < |tokens| then Some(tokens[i + 1]) else None)
  }

  /** How many tokens an item covers. */
  function Width(it: Item): nat {
    if it.Word? then 1 else 2
  }

  lemma ItemsStep(tokens: seq<string>, i: nat)
    requires i < |tokens|
    ensures Items(Rest(tokens, i)) == [ItemAt(tokens, i)] + Items(Rest(tokens, i + Width(ItemAt(tokens, i))))
  {
    var rest := tokens[i..];
    assert rest[0] == tokens[i];
    if i + 1 < |tokens| {
      assert rest[1] == tokens[i + 1];
      assert rest[2..] == Rest(tokens, i + 2);
    }
    assert rest[1..] == Rest(tokens, i + 1);
  }

  lemma AppendItem(items: seq<Item>, it: Item)
    ensures ArgsOf(items + [it]) == ArgsOf(items) + (if it.Word? then [it.word] else [])
    ensures forall s :: Final(items + [it], s) == if RedirectsTo(it, s) then RedirectionOf(it) else Final(items, s)
  {
    assert (items + [it])[..|items|] == items;
  }

  /** One more item moves from the unparsed tokens to the parsed ones. */
  lemma AdvanceItems(tokens: seq<string>, i: nat, done: seq<Item>)
    requires i < |tokens| && Items(tokens) == done + Items(Rest(tokens, i))
    ensures var it := ItemAt(tokens, i);
            Items(tokens) == (done + [it]) + Items(Rest(tokens, i + Width(it)))
  {
    var it := ItemAt(tokens, i);
    ItemsStep(tokens, i);
    Text.Associative(done, [it], Items(Rest(tokens, i + Width(it))));
  }

  /** `parse_command` (src/redirection.rs:19-67): the cursor may step one past the end after a final operator. */
  method ParseCommand(tokens: seq<string>) returns (parsed: ParsedCommand)
    ensures parsed == Parse(tokens)
  {
    var args: seq<string> := [];
    var redirectStdout: Option<Redirection> := None;
    var redirectStderr: Option<Redirection> := None;
    var i := 0;
    ghost var done: seq<Item> := [];
    while i < |tokens|
      invariant 0 <= i <= |tokens| + 1
      invariant Items(tokens) == done + Items(Rest(tokens, i))
      invariant args == ArgsOf(done)
      invariant redirectStdout == Final(done, Stdout)
      invariant redirectStderr == Final(done, Stderr)
      decreases |tokens| + 1 - i
    {
      var t := tokens[i];
      ghost var it := ItemAt(tokens, i);
      ghost var next := i + Width(it);
      AdvanceItems(tokens, i, done);
      AppendItem(done, it);
      match t {
      case ">" =>
        assert it == Redirect(Operator(Stdout, false), if i + 1 < |tokens| then Some(tokens[i + 1]) else None);
        redirectStdout := if i + 1 < |tokens| then Some(Redirection(tokens[i + 1], false)) else None;
        i := i + 2;
      case "1>" =>
        assert it == Redirect(Operator(Stdout, false), if i + 1 < |tokens| then Some(tokens[i + 1]) else None);
        redirectStdout := if i + 1 < |tokens| then Some(Redirection(tokens[i + 1], false)) else None;
        i := i + 2;
      case ">>" =>
        assert it == Redirect(Operator(Stdout, true), if i + 1 < |tokens| then Some(tokens[i + 1]) else None);
        redirectStdout := if i + 1 < |tokens| then Some(Redirection(tokens[i + 1], true)) else None;
        i := i + 2;
      case "1>>" =>
        assert it == Redirect(Operator(Stdout, true), if i + 1 < |tokens| then Some(tokens[i + 1]) else None);
        redirectStdout := if i + 1 < |tokens| then Some(Redirection(tokens[i + 1], true)) else None;
        i := i + 2;
      case "2>" =>
        assert it == Redirect(Operator(Stderr, false), if i + 1 < |tokens| then Some(tokens[i + 1]) else None);
        redirectStderr := if i + 1 < |tokens| then Some(Redirection(tokens[i + 1], false)) else None;
        i := i + 2;
      case "2>>" =>
        assert it == Redirect(Operator(Stderr, true), if i + 1 < |tokens| then Some(tokens[i + 1]) else None);
        redirectStderr := if i + 1 < |tokens| then Some(Redirection(tokens[i + 1], true)) else None;
        i := i + 2;
      case _ =>
        assert it == Word(t);
        args := args + [t];
        i := i + 1;
      }
      assert i == next;
      done := done + [it];
    }
    assert Rest(tokens, i) == [];
    assert Items(tokens) == done + [];
    assert done + [] == done;
    parsed := ParsedCommand(args, redirectStdout, redirectStderr);
  }

  // ---------------------------------------------------------------------------
  // Properties of the parser

  /** The redirection a parsed command has for stream `s`. */
  function RedirectionFor(parsed: ParsedCommand, s: Stream): Option<Redirection> {
    if s == Stdout then parsed.redirectStdout else parsed.redirectStderr
  }

  /** Some item redirects stream `s`. */
  predicate Mentions(items: seq<Item>, s: Stream) {
    exists k :: 0 <= k < |items| && RedirectsTo(items[k], s)
  }

  /** The tokens end in an operator that has no target (`DanglingEndsOpen` says so in terms of `Items`). */
  predicate Dangling(tokens: seq<string>)
    decreases |tokens|
  {
    tokens != [] &&
    if OperatorOf(tokens[0]).None? then Dangling(tokens[1..])
    else |tokens| == 1 || Dangling(tokens[2..])
  }

  /** The tokens are dangling exactly when their last item is an operator without a target. */
  lemma {:induction false} DanglingEndsOpen(tokens: seq<string>)
    ensures var items := Items(tokens);
            Dangling(tokens) <==> items != [] && items[|items| - 1].Redirect? && items[|items| - 1].target.None?
    decreases |tokens|
  {
    if tokens != [] {
      var items := Items(tokens);
      var next := if OperatorOf(tokens[0]).None? then 1 else 2;
      if next <= |tokens| {
        var rest := Items(tokens[next..]);
        DanglingEndsOpen(tokens[next..]);
        assert items == [items[0]] + rest;
        if rest != [] {
          assert items[|items| - 1] == rest[|rest| - 1];
        }
      }
    }
  }

  /** After tokens that do not dangle, what dangles is decided by the tokens that follow. */
  lemma {:induction false} DanglingAppend(pre: seq<string>, post: seq<string>)
    requires !Dangling(pre)
    ensures Dangling(pre + post) == Dangling(post)
    decreases |pre|
  {
    if pre == [] {
      assert pre + post == post;
    } else if OperatorOf(pre[0]).None? {
      assert (pre + post)[0] == pre[0] && (pre + post)[1..] == pre[1..] + post;
      DanglingAppend(pre[1..], post);
    } else {
      assert (pre + post)[0] == pre[0] && (pre + post)[2..] == pre[2..] + post;
      DanglingAppend(pre[2..], post);
    }
  }

  lemma {:induction false} ArgsOfAppend(a: seq<Item>, b: seq<Item>)
    ensures ArgsOf(a + b) == ArgsOf(a) + ArgsOf(b)
    decreases |b|
  {
    if b == [] {
      assert a + b == a;
    } else {
      var b' := b[..|b| - 1];
      assert (a + b)[..|a + b| - 1] == a + b';
      ArgsOfAppend(a, b');
    }
  }

  lemma {:induction false} FinalAppend(a: seq<Item>, b: seq<Item>, s: Stream)
    ensures Final(a + b, s) == if Mentions(b, s) then Final(b, s) else Final(a, s)
    decreases |b|
  {
    if b == [] {
      assert a + b == a;
    } else {
      var b' := b[..|b| - 1];
      assert (a + b)[..|a + b| - 1] == a + b';
      FinalAppend(a, b', s);
      if !RedirectsTo(b[|b| - 1], s) {
        assert Mentions(b, s) == Mentions(b', s) by {
          if Mentions(b, s) {
            var k :| 0 <= k < |b| && RedirectsTo(b[k], s);
            assert b'[k] == b[k];
          }
          if Mentions(b', s) {
            var k :| 0 <= k < |b'| && RedirectsTo(b'[k], s);
            assert b[k] == b'[k];
          }
        }
      }
    }
  }

  /** A word token in front becomes a word item in front. */
  lemma ItemsWordFirst(t: string, rest: seq<string>)
    requires OperatorOf(t).None?
    ensures Items([t] + rest) == [Word(t)] + Items(rest)
  {
    assert ([t] + rest)[0] == t && ([t] + rest)[1..] == rest;
  }

  /** An operator in front takes the token after it as its target. */
  lemma ItemsOperatorFirst(t: string, target: string, rest: seq<string>)
    requires OperatorOf(t).Some?
    ensures Items([t, target] + rest) == [Redirect(OperatorOf(t).value, Some(target))] + Items(rest)
  {
    var ts := [t, target] + rest;
    assert ts[0] == t && ts[1] == target && ts[2..] == rest;
  }

  /** Cutting a token list that does not end in a dangling operator commutes with concatenation. */
  lemma {:induction false} ItemsAppend(pre: seq<string>, post: seq<string>)
    requires !Dangling(pre)
    ensures Items(pre + post) == Items(pre) + Items(post)
    decreases |pre|
  {
    if pre == [] {
      assert pre + post == post;
    } else {
      var n := if OperatorOf(pre[0]).None? then 1 else 2;
      var tail := pre[n..];
      var first := ItemsFront(pre, post);
      ItemsAppend(tail, post);
      Text.Associative(first, Items(tail), Items(post));
    }
  }

  /** The item the first token (and its target) make, in front of the tokens that follow, with or without more tokens after. */
  lemma ItemsFront(pre: seq<string>, post: seq<string>) returns (first: seq<Item>)
    requires !Dangling(pre) && pre != []
    ensures var n := if OperatorOf(pre[0]).None? then 1 else 2;
            n <= |pre| && !Dangling(pre[n..])
            && Items(pre) == first + Items(pre[n..])
            && Items(pre + post) == first + Items(pre[n..] + post)
  {
    if OperatorOf(pre[0]).None? {
      first := [Word(pre[0])];
      var tail := pre[1..];
      assert pre == [pre[0]] + tail;
      assert pre + post == [pre[0]] + (tail + post);
      ItemsWordFirst(pre[0], tail);
      ItemsWordFirst(pre[0], tail + post);
    } else {
      first := [Redirect(OperatorOf(pre[0]).value, Some(pre[1]))];
      var tail := pre[2..];
      assert pre == [pre[0], pre[1]] + tail;
      assert pre + post == [pre[0], pre[1]] + (tail + post);
      ItemsOperatorFirst(pre[0], pre[1], tail);
      ItemsOperatorFirst(pre[0], pre[1], tail + post);
    }
  }

  /** A stream that some item redirects has its redirection from the last such item. */
  lemma {:induction false} FinalMentioned(items: seq<Item>, s: Stream)
    requires Mentions(items, s)
    ensures exists k :: 0 <= k < |items| && RedirectsTo(items[k], s) && Final(items, s) == RedirectionOf(items[k])
    decreases |items|
  {
    var last := items[|items| - 1];
    if !RedirectsTo(last, s) {
      var init := items[..|items| - 1];
      var k :| 0 <= k < |items| && RedirectsTo(items[k], s);
      assert init[k] == items[k];
      FinalMentioned(init, s);
      var j :| 0 <= j < |init| && RedirectsTo(init[j], s) && Final(init, s) == RedirectionOf(init[j]);
      assert items[j] == init[j];
    }
  }

  /** The words of a cut are never operator tokens. */
  lemma {:induction false} ItemsWords(tokens: seq<string>)
    ensures forall k :: 0 <= k < |Items(tokens)| && Items(tokens)[k].Word? ==> !IsOperator(Items(tokens)[k].word)
    decreases |tokens|
  {
    if tokens != [] && |tokens| != 1 {
      if OperatorOf(tokens[0]).None? {
        ItemsWords(tokens[1..]);
      } else {
        ItemsWords(tokens[2..]);
      }
    } else if |tokens| == 1 && OperatorOf(tokens[0]).None? {
      ItemsWords(tokens[1..]);
    }
  }

  lemma {:induction false} ArgsOfWords(items: seq<Item>)
    ensures forall a :: a in ArgsOf(items) ==> exists k :: 0 <= k < |items| && items[k] == Word(a)
    decreases |items|
  {
    if items != [] {
      var init := items[..|items| - 1];
      ArgsOfWords(init);
      forall a | a in ArgsOf(items) ensures exists k :: 0 <= k < |items| && items[k] == Word(a) {
        if a in ArgsOf(init) {
          var k :| 0 <= k < |init| && init[k] == Word(a);
          assert items[k] == Word(a);
        } else {
          assert items[|items| - 1] == Word(a);
        }
      }
    }
  }

  /** No argument is an operator token: every operator is taken out, together with its target. */
  lemma ArgsAreNotOperators(tokens: seq<string>)
    ensures forall a :: a in Parse(tokens).args ==> !IsOperator(a)
  {
    ItemsWords(tokens);
    ArgsOfWords(Items(tokens));
  }

  /** `a` is `b` with some elements left out. */
  predicate IsSubsequence(a: seq<string>, b: seq<string>)
    decreases |b|
  {
    if a == [] then true
    else if b == [] then false
    else (a[0] == b[0] && IsSubsequence(a[1..], b[1..])) || IsSubsequence(a, b[1..])
  }

  lemma {:induction false} SubsequenceLength(a: seq<string>, b: seq<string>)
    requires IsSubsequence(a, b)
    ensures |a| <= |b|
    decreases |b|
  {
    if a != [] {
      if a[0] == b[0] && IsSubsequence(a[1..], b[1..]) {
        SubsequenceLength(a[1..], b[1..]);
      } else {
        SubsequenceLength(a, b[1..]);
      }
    }
  }

  lemma {:induction false} SubsequenceSkip(a: seq<string>, b: seq<string>, x: string)
    requires IsSubsequence(a, b)
    ensures IsSubsequence(a, [x] + b)
  {
    if a != [] {
      assert ([x] + b)[1..] == b;
    }
  }

  lemma ArgsOfCons(it: Item, items: seq<Item>)
    ensures ArgsOf([it] + items) == (if it.Word? then [it.word] else []) + ArgsOf(items)
  {
    ArgsOfAppend([it], items);
    assert ArgsOf([it]) == ArgsOf([]) + (if it.Word? then [it.word] else []);
  }

  lemma SubsequenceCons(x: string, a: seq<string>, b: seq<string>)
    requires IsSubsequence(a, b)
    ensures IsSubsequence([x] + a, [x] + b)
  {
    assert ([x] + a)[0] == x && ([x] + a)[1..] == a && ([x] + b)[1..] == b;
  }

  lemma {:induction false} ArgsSubsequenceOfTokens(tokens: seq<string>)
    ensures IsSubsequence(ArgsOf(Items(tokens)), tokens)
    decreases |tokens|, 1
  {
    if tokens == [] {
    } else if OperatorOf(tokens[0]).None? {
      ArgsSubsequenceWord(tokens);
    } else if |tokens| == 1 {
      assert ArgsOf([Redirect(OperatorOf(tokens[0]).value, None)]) == ArgsOf([]);
    } else {
      ArgsSubsequenceOperator(tokens);
    }
  }

  lemma {:induction false} ArgsSubsequenceWord(tokens: seq<string>)
    requires tokens != [] && OperatorOf(tokens[0]).None?
    ensures IsSubsequence(ArgsOf(Items(tokens)), tokens)
    decreases |tokens|, 0
  {
    var t, tail := tokens[0], tokens[1..];
    assert Items(tokens) == [Word(t)] + Items(tail) by {
      assert tokens == [t] + tail;
      ItemsWordFirst(t, tail);
    }
    ArgsSubsequenceOfTokens(tail);
    ArgsOfCons(Word(t), Items(tail));
    SubsequenceCons(t, ArgsOf(Items(tail)), tail);
    assert tokens == [t] + tail;
  }

  lemma {:induction false} ArgsSubsequenceOperator(tokens: seq<string>)
    requires |tokens| >= 2 && OperatorOf(tokens[0]).Some?
    ensures IsSubsequence(ArgsOf(Items(tokens)), tokens)
    decreases |tokens|, 0
  {
    var t, u, rest := tokens[0], tokens[1], tokens[2..];
    var it := Redirect(OperatorOf(t).value, Some(u));
    assert Items(tokens) == [it] + Items(rest) by {
      assert tokens == [t, u] + rest;
      ItemsOperatorFirst(t, u, rest);
    }
    ArgsSubsequenceOfTokens(rest);
    var args := ArgsOf(Items(rest));
    assert ArgsOf(Items(tokens)) == args by {
      ArgsOfCons(it, Items(rest));
      assert [] + args == args;
    }
    SubsequenceSkip(args, rest, u);
    SubsequenceSkip(args, [u] + rest, t);
    assert tokens == [t] + ([u] + rest);
  }

  /** The arguments are the tokens in order with operators and their targets left out; there are no more of them than tokens. */
  lemma ArgsSubsequence(tokens: seq<string>)
    ensures IsSubsequence(Parse(tokens).args, tokens)
    ensures |Parse(tokens).args| <= |tokens|
  {
    ArgsSubsequenceOfTokens(tokens);
    SubsequenceLength(Parse(tokens).args, tokens);
  }

  /** Without operator tokens every token is an argument and nothing is redirected. */
  lemma {:induction false} NoOperators(tokens: seq<string>)
    requires forall k :: 0 <= k < |tokens| ==> !IsOperator(tokens[k])
    ensures Parse(tokens) == ParsedCommand(tokens, None, None)
    ensures !Mentions(Items(tokens), Stdout) && !Mentions(Items(tokens), Stderr)
    ensures !Dangling(tokens)
    decreases |tokens|
  {
    if tokens != [] {
      NoOperators(tokens[1..]);
      var w := Word(tokens[0]);
      var items := Items(tokens);
      assert items == [w] + Items(tokens[1..]);
      ArgsOfCons(w, Items(tokens[1..]));
      FinalAppend([w], Items(tokens[1..]), Stdout);
      FinalAppend([w], Items(tokens[1..]), Stderr);
      assert Final([w], Stdout) == None;
      assert Final([w], Stderr) == None;
      assert tokens == [tokens[0]] + tokens[1..];
      forall k | 0 < k < |items| ensures !RedirectsTo(items[k], Stdout) && !RedirectsTo(items[k], Stderr) {
        assert items[k] == Items(tokens[1..])[k - 1];
      }
      assert !RedirectsTo(items[0], Stdout) && !RedirectsTo(items[0], Stderr);
      assert items[|items| - 1].Word? by {
        if |items| > 1 {
          assert items[|items| - 1] == Items(tokens[1..])[|Items(tokens[1..])| - 1];
        }
      }
    }
  }

  /**
   * Parsing is compositional: when the first part does not end in an operator
   * waiting for its target, the arguments are those of both parts and each
   * stream is redirected as the second part says, or else as the first does.
   */
  lemma ParseAppend(pre: seq<string>, post: seq<string>)
    requires !Dangling(pre)
    ensures Parse(pre + post).args == Parse(pre).args + Parse(post).args
    ensures forall s :: RedirectionFor(Parse(pre + post), s) ==
              if Mentions(Items(post), s) then RedirectionFor(Parse(post), s) else RedirectionFor(Parse(pre), s)
  {
    ItemsAppend(pre, post);
    ArgsOfAppend(Items(pre), Items(post));
    FinalAppend(Items(pre), Items(post), Stdout);
    FinalAppend(Items(pre), Items(post), Stderr);
  }

  /** An operator and its target. */
  lemma ParsePair(op: string, file: string, o: Operator)
    requires OperatorOf(op) == Some(o)
    ensures Items([op, file]) == [Redirect(o, Some(file))]
    ensures !Dangling([op, file])
    ensures Parse([op, file]) == ParsedCommand([],
              if o.stream == Stdout then Some(Redirection(file, o.append)) else None,
              if o.stream == Stderr then Some(Redirection(file, o.append)) else None)
  {
    assert [op, file][2..] == [];
    var it := Redirect(o, Some(file));
    assert Items([op, file]) == [it] + Items([]);
    AppendItem([], it);
    assert [] + [it] == [it];
  }

  /**
   * The last operator for a stream wins: an operator and its target, followed
   * by tokens that do not redirect the same stream, decide that stream; the
   * arguments are as without the operator and its target.
   */
  lemma LastWins(pre: seq<string>, op: string, file: string, post: seq<string>, s: Stream, append: bool)
    requires !Dangling(pre)
    requires OperatorOf(op) == Some(Operator(s, append))
    requires !Mentions(Items(post), s)
    ensures RedirectionFor(Parse(pre + [op, file] + post), s) == Some(Redirection(file, append))
    ensures Parse(pre + [op, file] + post).args == Parse(pre).args + Parse(post).args
  {
    ParsePair(op, file, Operator(s, append));
    ParseAppend(pre, [op, file]);
    assert Mentions(Items([op, file]), s) by {
      assert RedirectsTo(Items([op, file])[0], s);
    }
    DanglingAppend(pre, [op, file]);
    ParseAppend(pre + [op, file], post);
    assert Parse(pre).args + [] == Parse(pre).args;
  }

  /** A final operator with no target erases that stream's redirection; the rest of the command is unaffected. */
  lemma DanglingResets(pre: seq<string>, op: string, s: Stream, append: bool)
    requires !Dangling(pre)
    requires OperatorOf(op) == Some(Operator(s, append))
    ensures RedirectionFor(Parse(pre + [op]), s) == None
    ensures s == Stdout ==> Parse(pre + [op]).redirectStderr == Parse(pre).redirectStderr
    ensures s == Stderr ==> Parse(pre + [op]).redirectStdout == Parse(pre).redirectStdout
    ensures Parse(pre + [op]).args == Parse(pre).args
  {
    var it := Redirect(Operator(s, append), None);
    ItemsAppend(pre, [op]);
    assert Items([op]) == [it];
    AppendItem(Items(pre), it);
  }

  /** An operator takes the next token as its target even when it is an operator itself. */
  lemma OperatorTakesOperator(rest: seq<string>)
    requires forall k :: 0 <= k < |rest| ==> !IsOperator(rest[k])
    ensures Parse([">", "2>"] + rest) == ParsedCommand(rest, Some(Redirection("2>", false)), None)
  {
    ParsePair(">", "2>", Operator(Stdout, false));
    NoOperators(rest);
    ParseAppend([">", "2>"], rest);
    assert [] + rest == rest;
  }

  /** Words followed by one operator and its target. */
  lemma RedirectAfterWords(words: seq<string>, op: string, file: string, o: Operator)
    requires forall k :: 0 <= k < |words| ==> !IsOperator(words[k])
    requires OperatorOf(op) == Some(o)
    ensures Parse(words + [op, file]) ==
              ParsedCommand(words,
                if o.stream == Stdout then Some(Redirection(file, o.append)) else None,
                if o.stream == Stderr then Some(Redirection(file, o.append)) else None)
  {
    NoOperators(words);
    ParsePair(op, file, o);
    ParseAppend(words, [op, file]);
    assert Mentions(Items([op, file]), o.stream) by {
      assert RedirectsTo(Items([op, file])[0], o.stream);
    }
    var other := if o.stream == Stdout then Stderr else Stdout;
    assert !Mentions(Items([op, file]), other);
    var p := Parse(words + [op, file]);
    assert p.redirectStdout == RedirectionFor(p, Stdout);
    assert p.redirectStderr == RedirectionFor(p, Stderr);
    assert words + [] == words;
  }

  /** One command word followed by one operator and its target. */
  lemma SingleRedirect(cmd: string, op: string, file: string)
    requires !IsOperator(cmd) && IsOperator(op)
    ensures var o := OperatorOf(op).value;
            Parse([cmd, op, file]) ==
              ParsedCommand([cmd],
                if o.stream == Stdout then Some(Redirection(file, o.append)) else None,
                if o.stream == Stderr then Some(Redirection(file, o.append)) else None)
  {
    RedirectAfterWords([cmd], op, file, OperatorOf(op).value);
    assert [cmd] + [op, file] == [cmd, op, file];
  }

  /** The operator table, first half: `>` and `1>` truncate stdout, `2>` truncates stderr. */
  lemma OperatorModesTruncate(cmd: string, file: string)
    requires !IsOperator(cmd)
    ensures Parse([cmd, ">", file]) == ParsedCommand([cmd], Some(Redirection(file, false)), None)
    ensures Parse([cmd, "1>", file]) == ParsedCommand([cmd], Some(Redirection(file, false)), None)
    ensures Parse([cmd, "2>", file]) == ParsedCommand([cmd], None, Some(Redirection(file, false)))
  {
    SingleRedirect(cmd, ">", file);
    SingleRedirect(cmd, "1>", file);
    SingleRedirect(cmd, "2>", file);
  }

  /** The operator table, second half: `>>` and `1>>` append to stdout, `2>>` appends to stderr. */
  lemma OperatorModesAppend(cmd: string, file: string)
    requires !IsOperator(cmd)
    ensures Parse([cmd, ">>", file]) == ParsedCommand([cmd], Some(Redirection(file, true)), None)
    ensures Parse([cmd, "1>>", file]) == ParsedCommand([cmd], Some(Redirection(file, true)), None)
    ensures Parse([cmd, "2>>", file]) == ParsedCommand([cmd], None, Some(Redirection(file, true)))
  {
    SingleRedirect(cmd, ">>", file);
    SingleRedirect(cmd, "1>>", file);
    SingleRedirect(cmd, "2>>", file);
  }


  /** The unit tests of src/redirection.rs:137-151. */
  lemma ParseTests()
    ensures Parse(["echo", "hi", ">", "out.txt"]) ==
              ParsedCommand(["echo", "hi"], Some(Redirection("out.txt", false)), None)
    ensures Parse(["ls", "2>", "err.txt"]).redirectStderr == Some(Redirection("err.txt", false))
  {
    var words := ["echo", "hi"];
    assert !IsOperator(words[0]) && !IsOperator(words[1]);
    RedirectAfterWords(words, ">", "out.txt", Operator(Stdout, false));
    assert words + [">", "out.txt"] == ["echo", "hi", ">", "out.txt"];
    RedirectAfterWords(["ls"], "2>", "err.txt", Operator(Stderr, false));
    assert ["ls"] + ["2>", "err.txt"] == ["ls", "2>", "err.txt"];
  }

  // ---------------------------------------------------------------------------
  // handle_output

  /** One output action of `handle_output`. */
  datatype Effect =
    | Print(text: string)                                  // `print!` to stdout
    | FlushStdout                                          // `io::stdout().flush()`
    | PrintError(text: string)                             // `eprintln!`, newline included
    | WriteFile(file: string, content: string, append: bool) // `write_to_file`
    | CreateFile(file: string, append: bool)               // `create_file`

  /** The text of an Ok result, empty for an error (`result.as_ref().ok().unwrap_or("")`). */
  function OkText(result: Result<string, string>): string {
    if result.Ok? then result.value else []
  }

  /** The text of an Err result, empty for success. */
  function ErrText(result: Result<string, string>): string {
    if result.Err? then result.error else []
  }

  /** The first half of `handle_output` (src/redirection.rs:100-116). */
  function StdoutEffects(result: Result<string, string>, parsed: ParsedCommand): (out: seq<Effect>)
    ensures Printed(out) == if parsed.redirectStdout.None? then OkText(result) else []
    ensures forall k :: 0 <= k < |out| && out[k].Print? ==> out[k].text != []
    ensures PrintedError(out) == []
    ensures Touched(out) == if parsed.redirectStdout.Some? then [parsed.redirectStdout.value.file] else []
    ensures FlushStdout in out <==>
              parsed.redirectStdout.None? && OkText(result) != [] && |parsed.args| > 0 && parsed.args[0] == "clear"
    ensures FlushStdout in out ==> out == [Print(OkText(result)), FlushStdout]
  {
    match parsed.redirectStdout
    case Some(r) =>
      if OkText(result) != [] then
        var e := WriteFile(r.file, OkText(result), r.append);
        assert Printed([e]) == [] + Printed([]) && PrintedError([e]) == [] + PrintedError([]);
        assert Touched([e]) == [r.file] + Touched([]);
        [e]
      else
        var e := CreateFile(r.file, r.append);
        assert Printed([e]) == [] + Printed([]) && PrintedError([e]) == [] + PrintedError([]);
        assert Touched([e]) == [r.file] + Touched([]);
        [e]
    case None =>
      if result.Ok? && result.value != [] then
        var flush := if |parsed.args| > 0 && parsed.args[0] == "clear" then [FlushStdout] else [];
        assert Printed(flush) == [] && PrintedError(flush) == [] && Touched(flush) == [] by {
          if flush != [] {
            assert flush[1..] == [];
          }
        }
        ObservationsAppend([Print(result.value)], flush);
        assert Printed([Print(result.value)]) == result.value + [];
        [Print(result.value)] + flush
      else []
  }

  /** The second half of `handle_output` (src/redirection.rs:118-130); it reads `args[0]` when stderr is redirected. */
  function StderrEffects(result: Result<string, string>, parsed: ParsedCommand): (err: seq<Effect>)
    requires parsed.redirectStderr.Some? ==> |parsed.args| > 0
    ensures Printed(err) == []
    ensures forall k :: 0 <= k < |err| ==> !err[k].Print? && err[k] != FlushStdout
    ensures PrintedError(err) == if parsed.redirectStderr.None? then
                                   (if result.Err? then result.error + "\n" else []) else []
    ensures Touched(err) == if parsed.redirectStderr.Some? && parsed.args[0] in Commands.BUILTINS
                            then [parsed.redirectStderr.value.file] else []
  {
    match parsed.redirectStderr
    case Some(r) =>
      if parsed.args[0] in Commands.BUILTINS then
        var e := if result.Err? then WriteFile(r.file, result.error, r.append) else CreateFile(r.file, r.append);
        assert Printed([e]) == [] + Printed([]) && PrintedError([e]) == [] + PrintedError([]);
        assert Touched([e]) == [r.file] + Touched([]);
        [e]
      else []
    case None =>
      if result.Err? then
        var e := PrintError(result.error + "\n");
        assert Printed([e]) == [] + Printed([]) && Touched([e]) == [] + Touched([]);
        assert PrintedError([e]) == e.text + [];
        [e]
      else []
  }

  /** All that was printed to stdout. */
  function Printed(effects: seq<Effect>): string
    decreases |effects|
  {
    if effects == [] then []
    else (if effects[0].Print? then effects[0].text else []) + Printed(effects[1..])
  }

  /** All that was printed to stderr. */
  function PrintedError(effects: seq<Effect>): string
    decreases |effects|
  {
    if effects == [] then []
    else (if effects[0].PrintError? then effects[0].text else []) + PrintedError(effects[1..])
  }

  /** The files the effects open, in order. */
  function Touched(effects: seq<Effect>): seq<string>
    decreases |effects|
  {
    if effects == [] then []
    else
      var e := effects[0];
      (if e.WriteFile? || e.CreateFile? then [e.file] else []) + Touched(effects[1..])
  }

  lemma {:induction false} ObservationsAppend(a: seq<Effect>, b: seq<Effect>)
    ensures Printed(a + b) == Printed(a) + Printed(b)
    ensures PrintedError(a + b) == PrintedError(a) + PrintedError(b)
    ensures Touched(a + b) == Touched(a) + Touched(b)
    decreases |a|
  {
    if a == [] {
      assert a + b == b;
    } else {
      var e := a[0];
      assert (a + b)[0] == e;
      assert (a + b)[1..] == a[1..] + b;
      ObservationsAppend(a[1..], b);
      Text.Associative(if e.Print? then e.text else [], Printed(a[1..]), Printed(b));
      Text.Associative(if e.PrintError? then e.text else [], PrintedError(a[1..]), PrintedError(b));
      Text.Associative(if e.WriteFile? || e.CreateFile? then [e.file] else [], Touched(a[1..]), Touched(b));
    }
  }

  /**
   * `handle_output` (src/redirection.rs:96-131): the result of a builtin goes to
   * stdout or stderr, or into the redirection files. What it does is stated by
   * `HandleOutputStdout`, `HandleOutputStderr`, `HandleOutputFiles` and
   * `FilesAfterOutput`.
   */
  function HandleOutput(result: Result<string, string>, parsed: ParsedCommand): seq<Effect>
    requires parsed.redirectStderr.Some? ==> |parsed.args| > 0
  {
    StdoutEffects(result, parsed) + StderrEffects(result, parsed)
  }

  /** Stdout gets the Ok text, only when it is not redirected, and never an empty print. */
  lemma HandleOutputStdout(result: Result<string, string>, parsed: ParsedCommand)
    requires parsed.redirectStderr.Some? ==> |parsed.args| > 0
    ensures var effects := HandleOutput(result, parsed);
            && Printed(effects) == (if parsed.redirectStdout.None? then OkText(result) else [])
            && (forall k :: 0 <= k < |effects| && effects[k].Print? ==> effects[k].text != [])
  {
    var out := StdoutEffects(result, parsed);
    var err := StderrEffects(result, parsed);
    ObservationsAppend(out, err);
    assert Printed(out) + [] == Printed(out);
    forall k | 0 <= k < |out + err| && (out + err)[k].Print?
      ensures (out + err)[k].text != []
    {
      if k < |out| {
        assert (out + err)[k] == out[k];
      }
    }
  }

  /** Stdout is flushed after printing for `clear`, and only then. */
  lemma HandleOutputFlush(result: Result<string, string>, parsed: ParsedCommand)
    requires parsed.redirectStderr.Some? ==> |parsed.args| > 0
    ensures FlushStdout in HandleOutput(result, parsed) <==>
              parsed.redirectStdout.None? && OkText(result) != [] && |parsed.args| > 0 && parsed.args[0] == "clear"
  {
    var out := StdoutEffects(result, parsed);
    var err := StderrEffects(result, parsed);
    assert FlushStdout !in err;
    assert FlushStdout in out + err <==> FlushStdout in out;
  }

  /** Stderr gets the error and a newline, only when it is not redirected. */
  lemma HandleOutputStderr(result: Result<string, string>, parsed: ParsedCommand)
    requires parsed.redirectStderr.Some? ==> |parsed.args| > 0
    ensures PrintedError(HandleOutput(result, parsed)) ==
              if parsed.redirectStderr.None? then (if result.Err? then result.error + "\n" else []) else []
  {
    var out := StdoutEffects(result, parsed);
    var err := StderrEffects(result, parsed);
    ObservationsAppend(out, err);
    assert [] + PrintedError(err) == PrintedError(err);
  }

  /** The files opened: the stdout target, then the stderr target when the command is a builtin. */
  lemma HandleOutputFiles(result: Result<string, string>, parsed: ParsedCommand)
    requires parsed.redirectStderr.Some? ==> |parsed.args| > 0
    ensures Touched(HandleOutput(result, parsed)) ==
              (if parsed.redirectStdout.Some? then [parsed.redirectStdout.value.file] else [])
              + (if parsed.redirectStderr.Some? && parsed.args[0] in Commands.BUILTINS
                 then [parsed.redirectStderr.value.file] else [])
  {
    ObservationsAppend(StdoutEffects(result, parsed), StderrEffects(result, parsed));
  }

  /** The contents of the files, by name. */
  type Files = map<string, string>

  /** The contents a file opened with `append` starts from: its old text, or nothing when truncated or new. */
  function Kept(fs: Files, file: string, append: bool): string {
    if append && file in fs then fs[file] else []
  }

  /** What an action does to the files: `std::fs::write` and `File::create` truncate, append mode keeps the text. */
  function ApplyOne(fs: Files, e: Effect): Files {
    match e
    case WriteFile(file, content, append) => fs[file := Kept(fs, file, append) + content]
    case CreateFile(file, append) => fs[file := Kept(fs, file, append)]
    case _ => fs
  }

  function Apply(fs: Files, effects: seq<Effect>): Files
    decreases |effects|
  {
    if effects == [] then fs else Apply(ApplyOne(fs, effects[0]), effects[1..])
  }

  lemma {:induction false} ApplyAppend(fs: Files, a: seq<Effect>, b: seq<Effect>)
    ensures Apply(fs, a + b) == Apply(Apply(fs, a), b)
    decreases |a|
  {
    if a == [] {
      assert a + b == b;
    } else {
      assert (a + b)[0] == a[0];
      assert (a + b)[1..] == a[1..] + b;
      ApplyAppend(ApplyOne(fs, a[0]), a[1..], b);
    }
  }

  /** A redirection receives `text`: truncated or appended to as it says, created when missing. */
  function Deliver(fs: Files, r: Redirection, text: string): Files {
    fs[r.file := Kept(fs, r.file, r.append) + text]
  }

  lemma ApplyStdoutEffects(fs: Files, result: Result<string, string>, parsed: ParsedCommand)
    ensures Apply(fs, StdoutEffects(result, parsed)) ==
              if parsed.redirectStdout.Some? then Deliver(fs, parsed.redirectStdout.value, OkText(result)) else fs
  {
    match parsed.redirectStdout
    case Some(r) =>
      if OkText(result) != [] {
        ApplySingle(fs, WriteFile(r.file, OkText(result), r.append));
      } else {
        ApplySingle(fs, CreateFile(r.file, r.append));
        assert Kept(fs, r.file, r.append) + [] == Kept(fs, r.file, r.append);
      }
    case None =>
      if result.Ok? && result.value != [] {
        var flush := if |parsed.args| > 0 && parsed.args[0] == "clear" then [FlushStdout] else [];
        ApplyAppend(fs, [Print(result.value)], flush);
        ApplySingle(fs, Print(result.value));
        if flush != [] {
          ApplySingle(fs, FlushStdout);
        }
      }
  }

  lemma ApplyStderrEffects(fs: Files, result: Result<string, string>, parsed: ParsedCommand)
    requires parsed.redirectStderr.Some? ==> |parsed.args| > 0
    ensures Apply(fs, StderrEffects(result, parsed)) ==
              if parsed.redirectStderr.Some? && parsed.args[0] in Commands.BUILTINS
              then Deliver(fs, parsed.redirectStderr.value, ErrText(result)) else fs
  {
    var err := StderrEffects(result, parsed);
    match parsed.redirectStderr
    case None =>
      if result.Err? {
        ApplySingle(fs, PrintError(result.error + "\n"));
      }
    case Some(r) =>
      if parsed.args[0] in Commands.BUILTINS {
        if result.Err? {
          ApplySingle(fs, WriteFile(r.file, result.error, r.append));
        } else {
          ApplySingle(fs, CreateFile(r.file, r.append));
          assert Kept(fs, r.file, r.append) + [] == Kept(fs, r.file, r.append);
        }
      }
  }

  lemma ApplySingle(fs: Files, e: Effect)
    ensures Apply(fs, [e]) == ApplyOne(fs, e)
  {
    assert [e][1..] == [];
  }

  /**
   * The files after `handle_output`: the stdout redirection receives the Ok
   * text, then the stderr redirection of a builtin receives the error text;
   * an external command's stderr redirection is left alone, and no other file
   * changes.
   */
  lemma FilesAfterOutput(fs: Files, result: Result<string, string>, parsed: ParsedCommand)
    requires parsed.redirectStderr.Some? ==> |parsed.args| > 0
    ensures var afterStdout := if parsed.redirectStdout.Some? then Deliver(fs, parsed.redirectStdout.value, OkText(result)) else fs;
            Apply(fs, HandleOutput(result, parsed)) ==
              if parsed.redirectStderr.Some? && parsed.args[0] in Commands.BUILTINS
              then Deliver(afterStdout, parsed.redirectStderr.value, ErrText(result))
              else afterStdout
  {
    var out := StdoutEffects(result, parsed);
    ApplyAppend(fs, out, StderrEffects(result, parsed));
    ApplyStdoutEffects(fs, result, parsed);
    ApplyStderrEffects(Apply(fs, out), result, parsed);
  }

  /**
   * Redirecting both streams of a builtin to the same file truncates it twice:
   * on success the stderr side re-creates the file after the output was
   * written, so `echo hi > f 2> f` leaves `f` empty.
   */
  lemma SameFileForBothStreams(fs: Files, text: string, file: string)
    ensures var parsed := ParsedCommand(["echo", "hi"], Some(Redirection(file, false)), Some(Redirection(file, false)));
            Apply(fs, HandleOutput(Ok(text), parsed)) == fs[file := []]
  {
    var parsed := ParsedCommand(["echo", "hi"], Some(Redirection(file, false)), Some(Redirection(file, false)));
    assert "echo" in Commands.BUILTINS;
    FilesAfterOutput(fs, Ok(text), parsed);
    assert Kept(fs[file := Kept(fs, file, false) + []], file, false) + [] == [];
  }

  /** With append mode on both streams the output survives: the file grows by the Ok text. */
  lemma SameFileAppended(fs: Files, text: string, file: string)
    ensures var parsed := ParsedCommand(["echo", "hi"], Some(Redirection(file, true)), Some(Redirection(file, true)));
            Apply(fs, HandleOutput(Ok(text), parsed)) == fs[file := (if file in fs then fs[file] else []) + text]
  {
    var parsed := ParsedCommand(["echo", "hi"], Some(Redirection(file, true)), Some(Redirection(file, true)));
    assert "echo" in Commands.BUILTINS;
    FilesAfterOutput(fs, Ok(text), parsed);
    var before := if file in fs then fs[file] else [];
    assert (before + text) + [] == before + text;
  }

  /** Every operator ends in `>`. */
  lemma OperatorEndsInGt(t: string)
    requires IsOperator(t)
    ensures t != [] && t[|t| - 1] == '>'
  {
    assert t in [">", "1>", ">>", "1>>", "2>", "2>>"];
  }

  /** So a token without `>` is a word. */
  lemma PlainIsNotOperator(t: string)
    ensures Tokenize.Plain(t) ==> !IsOperator(t)
  {
    if IsOperator(t) {
      OperatorEndsInGt(t);
    }
  }

  /**
   * A command line of plain words, ` > ` and a file name, tokenized and then
   * parsed: the words are the arguments and stdout goes to the file, truncating.
   */
  lemma LineWithRedirect(ws: seq<string>, f: string)
    requires |ws| >= 1 && Tokenize.Words(ws) && f != [] && Tokenize.WordChars(f)
    ensures Parse(Tokenize.Lex(Text.Join(ws, " ") + " > " + f)) ==
              ParsedCommand(ws, Some(Redirection(f, false)), None)
  {
    Tokenize.LexWordsRedirect(ws, f);
    forall k | 0 <= k < |ws|
      ensures !IsOperator(ws[k])
    {
      PlainIsNotOperator(ws[k]);
    }
    RedirectAfterWords(ws, ">", f, Operator(Stdout, false));
  }

}
