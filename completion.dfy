/**
 * Tab completion of src/completion.rs: the word under the cursor, the test
 * for completing a command name, and the candidate list built from the
 * builtins and the entries of the PATH directories, sorted by the text shown
 * and with repeated names removed.
 *
 * The PATH variable and the listing of a directory are inputs: `listDir`
 * yields the names of a directory's entries, or none when it cannot be read.
 */
module Completion {
  import opened Wrappers
  import opened Text
  import Commands

  /** rustyline's `Pair`: the text shown, and the text inserted. */
  datatype Pair = Pair(display: string, replacement: string)

  /** The answer of `complete`: a start column and candidates, or the filename completer's answer. */
  datatype Completion = CommandCompletion(start: nat, candidates: seq<Pair>) | Filenames

  /** The index of the last whitespace character of `s`, if any (`str::rfind`). */
  function LastWhitespace(s: string): (r: Option<nat>)
    ensures r.Some? ==> r.value < |s| && IsWhitespace(s[r.value])
                        && forall j :: r.value < j < |s| ==> !IsWhitespace(s[j])
    ensures r.None? <==> NoWhitespace(s)
    decreases |s|
  {
    if s == [] then None
    else if IsWhitespace(s[|s| - 1]) then Some(|s| - 1)
    else
      var r := LastWhitespace(s[..|s| - 1]);
      assert forall j :: 0 <= j < |s| - 1 ==> s[..|s| - 1][j] == s[j];
      r
  }

  /**
   * `extract_word` (src/completion.rs:77-81): the word before the cursor
   * starts just after the last whitespace before `pos`, or at the start of
   * the line.
   */
  function ExtractWord(line: string, pos: nat): (r: (nat, string))
    requires pos <= |line|
    ensures r.0 <= pos && r.1 == line[r.0..pos]
    ensures NoWhitespace(r.1)
    ensures r.0 == 0 <==> NoWhitespace(line[..pos])
    ensures r.0 > 0 ==> IsWhitespace(line[r.0 - 1])
  {
    var before := line[..pos];
    var start := match LastWhitespace(before) case None => 0 case Some(i) => i + 1;
    assert forall j :: 0 <= j < pos ==> before[j] == line[j];
    assert forall j :: 0 <= j < pos - start ==> line[start..pos][j] == line[start + j];
    (start, line[start..pos])
  }

  /** The test of src/completion.rs:34: at most one word lies before the cursor. */
  predicate IsFirstWord(line: string, pos: nat)
    requires pos <= |line|
  {
    |SplitWhitespace(line[..pos])| <= 1
  }

  /** The candidate for a name: shown as is, inserted with a space after it. */
  function PairOf(name: string): Pair {
    Pair(name, name + " ")
  }

  /** The candidates for the names that start with `word`, in order. */
  function Offer(names: seq<string>, word: string): seq<Pair>
    decreases |names|
  {
    if names == [] then []
    else
      var last := names[|names| - 1];
      Offer(names[..|names| - 1], word) + (if word <= last then [PairOf(last)] else [])
  }

  /** The names listed in the directories `dirs`, in order; an unreadable directory adds nothing. */
  function Listed(dirs: seq<string>, listDir: string -> Option<seq<string>>): seq<string>
    decreases |dirs|
  {
    if dirs == [] then []
    else
      var d := dirs[|dirs| - 1];
      Listed(dirs[..|dirs| - 1], listDir) + listDir(d).GetOr([])
  }

  /** The names of all PATH directories, whose entries `Commands.PathDirs` splits out. */
  function PathNames(path: Option<string>, listDir: string -> Option<seq<string>>): seq<string> {
    match path
    case None => []
    case Some(p) => Listed(Commands.PathDirs(p), listDir)
  }

  /** Sorted by display, as `sort_by` on `display.cmp` leaves it. */
  predicate Sorted(cs: seq<Pair>) {
    forall k :: 0 < k < |cs| ==> LexLe(cs[k - 1].display, cs[k].display)
  }

  /** Sorted by display with no display twice. */
  predicate StrictlySorted(cs: seq<Pair>) {
    forall j, k :: 0 <= j < k < |cs| ==> LexLe(cs[j].display, cs[k].display) && cs[j].display != cs[k].display
  }

  lemma SortedTail(s: seq<Pair>)
    requires s != [] && Sorted(s)
    ensures Sorted(s[1..])
  {
    forall k | 0 < k < |s[1..]| ensures LexLe(s[1..][k - 1].display, s[1..][k].display) {
      assert s[1..][k - 1] == s[k] && s[1..][k] == s[k + 1];
    }
  }

  lemma SortedCons(a: Pair, rest: seq<Pair>)
    requires Sorted(rest) && (rest != [] ==> LexLe(a.display, rest[0].display))
    ensures Sorted([a] + rest)
  {
    var r := [a] + rest;
    forall k | 0 < k < |r| ensures LexLe(r[k - 1].display, r[k].display) {
      if k > 1 {
        assert r[k - 1] == rest[k - 2] && r[k] == rest[k - 1];
      }
    }
  }

  /** `x` put into the sorted `s` after the entries whose display is not greater. */
  function Insert(s: seq<Pair>, x: Pair): (r: seq<Pair>)
    ensures |r| == |s| + 1
    ensures r[0] == x || (s != [] && r[0] == s[0])
    decreases |s|
  {
    if s == [] then [x]
    else if LexLe(s[0].display, x.display) then [s[0]] + Insert(s[1..], x)
    else [x] + s
  }

  /** Insertion adds exactly the one element. */
  lemma {:induction false} InsertPermutes(s: seq<Pair>, x: Pair)
    ensures multiset(Insert(s, x)) == multiset(s) + multiset{x}
    decreases |s|
  {
    if s != [] && LexLe(s[0].display, x.display) {
      InsertPermutes(s[1..], x);
      assert s == [s[0]] + s[1..];
    }
  }

  /** Insertion into a sorted list keeps it sorted. */
  lemma {:induction false} InsertSorted(s: seq<Pair>, x: Pair)
    requires Sorted(s)
    ensures Sorted(Insert(s, x))
    decreases |s|
  {
    if s == [] {
    } else if LexLe(s[0].display, x.display) {
      SortedTail(s);
      InsertSorted(s[1..], x);
      var rest := Insert(s[1..], x);
      assert rest[0] == x || rest[0] == s[1];
      SortedCons(s[0], rest);
    } else {
      LexLeTotal(s[0].display, x.display);
      SortedCons(x, s);
    }
  }

  /** The candidates sorted by display (`sort_by`), here by insertion. */
  method SortByDisplay(cs: seq<Pair>) returns (sorted: seq<Pair>)
    ensures Sorted(sorted)
    ensures multiset(sorted) == multiset(cs)
  {
    sorted := [];
    var i := 0;
    while i < |cs|
      invariant 0 <= i <= |cs|
      invariant Sorted(sorted)
      invariant multiset(sorted) == multiset(cs[..i])
    {
      InsertPermutes(sorted, cs[i]);
      InsertSorted(sorted, cs[i]);
      sorted := Insert(sorted, cs[i]);
      assert cs[..i + 1] == cs[..i] + [cs[i]];
      i := i + 1;
    }
    assert cs[..i] == cs;
  }

  /**
   * Consecutive entries with the same display reduced to the first of them,
   * as `dedup_by` on equal displays leaves them.
   */
  function Dedup(cs: seq<Pair>): (r: seq<Pair>)
    ensures |r| <= |cs|
    ensures cs != [] ==> r != [] && r[|r| - 1].display == cs[|cs| - 1].display
    ensures forall p :: p in r ==> p in cs
    decreases |cs|
  {
    if cs == [] then []
    else
      var init := cs[..|cs| - 1];
      var last := cs[|cs| - 1];
      var d := Dedup(init);
      assert forall p :: p in init ==> p in cs;
      if init != [] && init[|init| - 1].display == last.display then d else d + [last]
  }

  /** On a sorted list `Dedup` leaves no display twice. */
  lemma {:induction false} DedupStrictlySorted(cs: seq<Pair>)
    requires Sorted(cs)
    ensures StrictlySorted(Dedup(cs))
    decreases |cs|
  {
    if cs != [] {
      var init := cs[..|cs| - 1];
      var last := cs[|cs| - 1];
      assert Sorted(init) by {
        forall k | 0 < k < |init| ensures LexLe(init[k - 1].display, init[k].display) {
          assert init[k - 1] == cs[k - 1] && init[k] == cs[k];
        }
      }
      DedupStrictlySorted(init);
      var d := Dedup(init);
      if !(init != [] && init[|init| - 1].display == last.display) && d != [] {
        var top := d[|d| - 1];
        assert top.display == init[|init| - 1].display == cs[|cs| - 2].display;
        assert LexLe(top.display, last.display);
        forall j | 0 <= j < |d| ensures LexLe(d[j].display, last.display) && d[j].display != last.display {
          if j < |d| - 1 {
            LexLeTransitive(d[j].display, top.display, last.display);
            if d[j].display == last.display {
              LexLeAntisymmetric(top.display, last.display);
            }
          }
        }
        var r := d + [last];
        forall j, k | 0 <= j < k < |r| ensures LexLe(r[j].display, r[k].display) && r[j].display != r[k].display {
          if k < |d| {
            assert r[j] == d[j] && r[k] == d[k];
          }
        }
      }
    }
  }

  /** The displays of a candidate list. */
  function Displays(cs: seq<Pair>): set<string> {
    set p | p in cs :: p.display
  }

  lemma DisplaysAppend(cs: seq<Pair>, x: Pair)
    ensures Displays(cs + [x]) == Displays(cs) + {x.display}
  {
    assert forall p :: p in cs + [x] <==> p in cs || p == x;
  }

  /** `Dedup` drops no display. */
  lemma {:induction false} DedupKeepsDisplays(cs: seq<Pair>)
    ensures Displays(Dedup(cs)) == Displays(cs)
    decreases |cs|
  {
    if cs != [] {
      var init := cs[..|cs| - 1];
      var last := cs[|cs| - 1];
      DedupKeepsDisplays(init);
      assert cs == init + [last];
      DisplaysAppend(init, last);
      var d := Dedup(init);
      if init != [] && init[|init| - 1].display == last.display {
        assert d[|d| - 1] in d;
        assert last.display in Displays(d);
      } else {
        DisplaysAppend(d, last);
      }
    }
  }

  /** `dedup_by` on displays, the loop over the list. */
  method DedupByDisplay(cs: seq<Pair>) returns (out: seq<Pair>)
    ensures out == Dedup(cs)
  {
    out := [];
    var i := 0;
    while i < |cs|
      invariant 0 <= i <= |cs|
      invariant out == Dedup(cs[..i])
    {
      assert cs[..i + 1][..i] == cs[..i];
      if i == 0 || cs[i - 1].display != cs[i].display {
        out := out + [cs[i]];
      }
      i := i + 1;
    }
    assert cs[..i] == cs;
  }

  /** The PATH part of the candidates: every readable directory in turn, its entries in order. */
  method OfferPath(path: Option<string>, listDir: string -> Option<seq<string>>, word: string)
    returns (candidates: seq<Pair>)
    ensures candidates == Offer(PathNames(path, listDir), word)
  {
    candidates := [];
    match path {
      case None =>
      case Some(p) =>
        var dirs := Commands.PathDirs(p);
        var d := 0;
        while d < |dirs|
          invariant 0 <= d <= |dirs|
          invariant candidates == Offer(Listed(dirs[..d], listDir), word)
        {
          ListedStep(dirs, d, listDir);
          match listDir(dirs[d]) {
            case None =>
              assert Listed(dirs[..d], listDir) + [] == Listed(dirs[..d], listDir);
            case Some(entries) =>
              var found := OfferEntries(entries, word);
              OfferAppend(Listed(dirs[..d], listDir), entries, word);
              candidates := candidates + found;
          }
          d := d + 1;
        }
        assert dirs[..d] == dirs;
    }
  }

  /** The entries of one directory, in order, one step of `Listed`. */
  lemma ListedStep(dirs: seq<string>, d: nat, listDir: string -> Option<seq<string>>)
    requires d < |dirs|
    ensures Listed(dirs[..d + 1], listDir) == Listed(dirs[..d], listDir) + listDir(dirs[d]).GetOr([])
  {
    assert dirs[..d + 1][..d] == dirs[..d];
  }

  /** The inner loop over one directory's entries: those starting with `word`, in order. */
  method OfferEntries(entries: seq<string>, word: string) returns (found: seq<Pair>)
    ensures found == Offer(entries, word)
  {
    found := [];
    var e := 0;
    while e < |entries|
      invariant 0 <= e <= |entries|
      invariant found == Offer(entries[..e], word)
    {
      assert entries[..e + 1][..e] == entries[..e];
      if word <= entries[e] {
        found := found + [PairOf(entries[e])];
      }
      e := e + 1;
    }
    assert entries[..e] == entries;
  }


  /** The candidates before sorting: the matching builtins, then the matching PATH entries. */
  method CollectCandidates(builtins: seq<string>, path: Option<string>, listDir: string -> Option<seq<string>>,
                           word: string)
    returns (candidates: seq<Pair>)
    ensures candidates == Offer(builtins + PathNames(path, listDir), word)
  {
    candidates := [];
    var i := 0;
    while i < |builtins|
      invariant 0 <= i <= |builtins|
      invariant candidates == Offer(builtins[..i], word)
    {
      assert builtins[..i + 1][..i] == builtins[..i];
      if word <= builtins[i] {
        candidates := candidates + [PairOf(builtins[i])];
      }
      i := i + 1;
    }
    assert builtins[..i] == builtins;
    var fromPath := OfferPath(path, listDir, word);
    candidates := candidates + fromPath;
    OfferAppend(builtins, PathNames(path, listDir), word);
  }

  /** Sorting and removing repeats keeps exactly the pairs of the names that start with the word. */
  lemma SortedUnique(names: seq<string>, word: string, sorted: seq<Pair>)
    requires Sorted(sorted)
    requires multiset(sorted) == multiset(Offer(names, word))
    ensures StrictlySorted(Dedup(sorted))
    ensures forall p :: p in Dedup(sorted) <==> p == PairOf(p.display) && word <= p.display && p.display in names
  {
    DedupStrictlySorted(sorted);
    DedupKeepsDisplays(sorted);
    var unique := Dedup(sorted);
    forall p | p in unique ensures p == PairOf(p.display) && word <= p.display && p.display in names {
      assert p in multiset(sorted);
      OfferMembers(names, word, p);
    }
    forall p: Pair | p == PairOf(p.display) && word <= p.display && p.display in names ensures p in unique {
      OfferMembers(names, word, p);
      assert p in multiset(sorted);
      assert p.display in Displays(sorted);
      var q :| q in unique && q.display == p.display;
      assert q in multiset(sorted);
      OfferMembers(names, word, q);
    }
  }

  /**
   * `complete` (src/completion.rs:27-74). When the cursor is in the first
   * word, the candidates are the builtins, then the entries of every PATH
   * directory, that start with the word; sorted and without repeated names.
   * Otherwise completion is the filename completer's.
   */
  method Complete(builtins: seq<string>, path: Option<string>, listDir: string -> Option<seq<string>>,
                  line: string, pos: nat)
    returns (c: Completion)
    requires pos <= |line|
    ensures c.CommandCompletion? <==> IsFirstWord(line, pos)
    ensures c.CommandCompletion? ==> c.start == ExtractWord(line, pos).0
    ensures c.CommandCompletion? ==> StrictlySorted(c.candidates)
    ensures c.CommandCompletion? ==>
              forall p :: p in c.candidates <==>
                p == PairOf(p.display) && ExtractWord(line, pos).1 <= p.display
                && (p.display in builtins || p.display in PathNames(path, listDir))
  {
    var r := ExtractWord(line, pos);
    var start := r.0;
    var word := r.1;
    if |SplitWhitespace(line[..pos])| <= 1 {
      var candidates := CollectCandidates(builtins, path, listDir, word);
      var sorted := SortByDisplay(candidates);
      var unique := DedupByDisplay(sorted);
      SortedUnique(builtins + PathNames(path, listDir), word, sorted);
      c := CommandCompletion(start, unique);
    } else {
      c := Filenames;
    }
  }

  lemma {:induction false} OfferAppend(a: seq<string>, b: seq<string>, word: string)
    ensures Offer(a + b, word) == Offer(a, word) + Offer(b, word)
    decreases |b|
  {
    if b == [] {
      assert a + b == a;
    } else {
      var b' := b[..|b| - 1];
      assert (a + b)[..|a + b| - 1] == a + b';
      OfferAppend(a, b', word);
    }
  }

  /** The candidates offered for `names` are exactly the pairs of the names that start with `word`. */
  lemma {:induction false} OfferMembers(names: seq<string>, word: string, p: Pair)
    ensures p in Offer(names, word) <==> p == PairOf(p.display) && word <= p.display && p.display in names
    decreases |names|
  {
    if names != [] {
      var init := names[..|names| - 1];
      OfferMembers(init, word, p);
      assert names == init + [names[|names| - 1]];
    }
  }

  /** Before any whitespace the cursor is in the first word, and the whole prefix is the word. */
  lemma FirstWordWithoutWhitespace(line: string, pos: nat)
    requires pos <= |line| && NoWhitespace(line[..pos])
    ensures IsFirstWord(line, pos)
    ensures ExtractWord(line, pos) == (0, line[..pos])
  {
    var before := line[..pos];
    EmptyHasNoWords();
    if before != [] {
      SplitWhitespaceWord(before, []);
      assert before + [] == before;
    }
  }

  /** After a word, whitespace and a second word, the cursor is past the first word: filenames are completed. */
  lemma SecondWord(w1: string, c: char, w2: string)
    requires w1 != [] && NoWhitespace(w1) && w2 != [] && NoWhitespace(w2) && IsWhitespace(c)
    ensures var line := w1 + [c] + w2;
            !IsFirstWord(line, |line|) && ExtractWord(line, |line|) == (|w1| + 1, w2)
  {
    var line := w1 + [c] + w2;
    assert line[..|line|] == line;
    assert line == w1 + ([c] + w2);
    SplitWhitespaceWord(w1, [c] + w2);
    SplitWhitespaceSkip(c, w2);
    SplitWhitespaceWord(w2, []);
    assert w2 + [] == w2;
    EmptyHasNoWords();
    var r := ExtractWord(line, |line|);
    assert line[|w1|] == c;
    assert r.0 == |w1| + 1;
    assert line[|w1| + 1..] == w2;
  }

  /**
   * With the cursor just after a word and a space, as in `echo ` followed by
   * a tab, the line still counts as its first word, so command names are
   * completed, from the empty word: every builtin is a candidate.
   */
  lemma CommandAfterSpace(w: string)
    requires w != [] && NoWhitespace(w)
    ensures var line := w + " ";
            IsFirstWord(line, |line|) && ExtractWord(line, |line|) == (|w| + 1, [])
  {
    var line := w + " ";
    assert line[..|line|] == line;
    SplitWhitespaceWord(w, " ");
    SplitWhitespaceSkip(' ', []);
    assert [' '] + [] == " ";
    EmptyHasNoWords();
    assert IsWhitespace(line[|line| - 1]);
  }
}
