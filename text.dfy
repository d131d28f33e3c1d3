/**
 * Character classes and the string operations of Rust's standard library that
 * the shell relies on: `char::is_whitespace`, `char::is_ascii_digit`,
 * `str::split`, `str::split_whitespace`, `[String]::join` and the ordering of
 * `String` (code-point lexicographic, which is what byte order on UTF-8 gives).
 */
module Text {

  /** Rust's `char::is_whitespace`: the Unicode White_Space property. */
  predicate IsWhitespace(c: char) {
    ('\t' <= c <= '\r') || c == ' ' || c == '\U{0085}' || c == '\U{00A0}' || c == '\U{1680}'
    || ('\U{2000}' <= c <= '\U{200A}') || c == '\U{2028}' || c == '\U{2029}'
    || c == '\U{202F}' || c == '\U{205F}' || c == '\U{3000}'
  }

  /** Rust's `char::is_ascii_digit`. */
  predicate IsAsciiDigit(c: char) {
    '0' <= c <= '9'
  }

  predicate NoWhitespace(s: string) {
    forall i :: 0 <= i < |s| ==> !IsWhitespace(s[i])
  }

  predicate IsSpace(c: char) {
    c == ' '
  }

  predicate IsColon(c: char) {
    c == ':'
  }

  /**
   * Rust's `str::split` with a character predicate: the pieces between
   * separators, empty pieces included, so there is always at least one.
   */
  function SplitWhere(s: string, isSep: char -> bool): (r: seq<string>)
    ensures |r| >= 1
    ensures forall k, i :: 0 <= k < |r| && 0 <= i < |r[k]| ==> !isSep(r[k][i])
    decreases |s|
  {
    if s == [] then [[]]
    else if isSep(s[0]) then [[]] + SplitWhere(s[1..], isSep)
    else
      var rest := SplitWhere(s[1..], isSep);
      [[s[0]] + rest[0]] + rest[1..]
  }

  /** Rust's `[String]::join(sep)`. */
  function Join(parts: seq<string>, sep: string): string
    decreases |parts|
  {
    if parts == [] then []
    else if |parts| == 1 then parts[0]
    else parts[0] + sep + Join(parts[1..], sep)
  }

  /** Concatenation regrouped. */
  lemma Associative<T>(a: seq<T>, b: seq<T>, c: seq<T>)
    ensures a + (b + c) == (a + b) + c
  {
  }

  /** A join of at least two parts as its first part, a separator and the join of the rest. */
  lemma JoinCons(parts: seq<string>, sep: string)
    requires |parts| >= 2
    ensures Join(parts, sep) == parts[0] + (sep + Join(parts[1..], sep))
  {
    Associative(parts[0], sep, Join(parts[1..], sep));
  }

  /** A join of at least two parts, followed by more text, as its first part, a separator and the rest. */
  lemma JoinFront(parts: seq<string>, sep: string, rest: string)
    requires |parts| >= 2
    ensures Join(parts, sep) + rest == parts[0] + (sep + (Join(parts[1..], sep) + rest))
  {
    var tail := Join(parts[1..], sep);
    assert Join(parts, sep) == (parts[0] + sep) + tail;
    Associative(parts[0] + sep, tail, rest);
    Associative(parts[0], sep, tail + rest);
  }

  /** Joining the pieces of a split with the separator gives back the string. */
  lemma {:induction false} JoinSplitWhere(s: string, isSep: char -> bool, sep: char)
    requires forall c :: isSep(c) <==> c == sep
    ensures Join(SplitWhere(s, isSep), [sep]) == s
    decreases |s|
  {
    if s != [] {
      var rest := SplitWhere(s[1..], isSep);
      JoinSplitWhere(s[1..], isSep, sep);
      if isSep(s[0]) {
        assert SplitWhere(s, isSep) == [[]] + rest;
        if |rest| == 1 {
          assert Join([[]] + rest, [sep]) == [] + [sep] + rest[0];
        } else {
          assert ([[]] + rest)[1..] == rest;
        }
      } else {
        var r := SplitWhere(s, isSep);
        assert r == [[s[0]] + rest[0]] + rest[1..];
        if |rest| == 1 {
          assert r == [[s[0]] + rest[0]];
        } else {
          assert r[1..] == rest[1..];
          assert Join(rest, [sep]) == rest[0] + [sep] + Join(rest[1..], [sep]);
        }
      }
    }
  }

  /** Splitting a join of separator-free pieces gives back the pieces. */
  lemma {:induction false} SplitWhereJoin(parts: seq<string>, isSep: char -> bool, sep: char)
    requires forall c :: isSep(c) <==> c == sep
    requires |parts| >= 1
    requires forall k, i :: 0 <= k < |parts| && 0 <= i < |parts[k]| ==> parts[k][i] != sep
    ensures SplitWhere(Join(parts, [sep]), isSep) == parts
    decreases |parts|, |parts[0]|, 1
  {
    if |parts| == 1 {
      SplitWhereFree(parts[0], isSep, []);
      assert parts[0] + [] == parts[0];
      assert SplitWhere([], isSep) == [[]];
    } else if parts[0] == [] {
      SplitWhereJoinEmptyFirst(parts, isSep, sep);
    } else {
      SplitWhereJoinFirstChar(parts, isSep, sep);
    }
  }

  lemma {:induction false} SplitWhereJoinEmptyFirst(parts: seq<string>, isSep: char -> bool, sep: char)
    requires forall c :: isSep(c) <==> c == sep
    requires |parts| >= 2 && parts[0] == []
    requires forall k, i :: 0 <= k < |parts| && 0 <= i < |parts[k]| ==> parts[k][i] != sep
    ensures SplitWhere(Join(parts, [sep]), isSep) == parts
    decreases |parts|, |parts[0]|, 0
  {
    var tail := parts[1..];
    var joined := Join(tail, [sep]);
    JoinCons(parts, [sep]);
    assert Join(parts, [sep]) == [sep] + joined;
    SplitWhereJoin(tail, isSep, sep);
    assert ([sep] + joined)[0] == sep && ([sep] + joined)[1..] == joined;
    assert parts == [[]] + tail;
  }

  lemma {:induction false} SplitWhereJoinFirstChar(parts: seq<string>, isSep: char -> bool, sep: char)
    requires forall c :: isSep(c) <==> c == sep
    requires |parts| >= 2 && parts[0] != []
    requires forall k, i :: 0 <= k < |parts| && 0 <= i < |parts[k]| ==> parts[k][i] != sep
    ensures SplitWhere(Join(parts, [sep]), isSep) == parts
    decreases |parts|, |parts[0]|, 0
  {
    var c := parts[0][0];
    var shorter := [parts[0][1..]] + parts[1..];
    assert Join(parts, [sep]) == [c] + Join(shorter, [sep]) by {
      var rest := [sep] + Join(parts[1..], [sep]);
      assert shorter[0] == parts[0][1..] && shorter[1..] == parts[1..];
      JoinCons(shorter, [sep]);
      JoinCons(parts, [sep]);
      assert parts[0] == [c] + parts[0][1..];
      Associative([c], parts[0][1..], rest);
    }
    assert forall k, i :: 0 <= k < |shorter| && 0 <= i < |shorter[k]| ==> shorter[k][i] != sep by {
      forall k, i | 0 <= k < |shorter| && 0 <= i < |shorter[k]| ensures shorter[k][i] != sep {
        if k == 0 {
          assert shorter[0][i] == parts[0][i + 1];
        } else {
          assert shorter[k] == parts[k];
        }
      }
    }
    SplitWhereJoin(shorter, isSep, sep);
    var line := [c] + Join(shorter, [sep]);
    assert line[0] == c && line[1..] == Join(shorter, [sep]);
    assert [c] + shorter[0] == parts[0];
    assert parts == [[c] + shorter[0]] + shorter[1..];
  }

  /** A separator-free string followed by more text stays one piece. */
  lemma {:induction false} SplitWhereFree(w: string, isSep: char -> bool, tail: string)
    requires forall i :: 0 <= i < |w| ==> !isSep(w[i])
    ensures SplitWhere(w + tail, isSep) ==
            [w + SplitWhere(tail, isSep)[0]] + SplitWhere(tail, isSep)[1..]
    decreases |w|
  {
    if w != [] {
      SplitWhereFree(w[1..], isSep, tail);
      assert (w + tail)[1..] == w[1..] + tail;
      assert w == [w[0]] + w[1..];
      Associative([w[0]], w[1..], SplitWhere(tail, isSep)[0]);
    } else {
      var r := SplitWhere(tail, isSep);
      assert w + tail == tail;
      assert [] + r[0] == r[0];
      assert r == [r[0]] + r[1..];
    }
  }

  /** The strings of `ts` that are not empty, in order. */
  function NonEmpty(ts: seq<string>): (r: seq<string>)
    ensures forall k :: 0 <= k < |r| ==> r[k] != []
    ensures forall t :: t in r ==> t in ts
    decreases |ts|
  {
    if ts == [] then []
    else if ts[0] == [] then NonEmpty(ts[1..])
    else [ts[0]] + NonEmpty(ts[1..])
  }

  lemma {:induction false} NonEmptyAppend(a: seq<string>, b: seq<string>)
    ensures NonEmpty(a + b) == NonEmpty(a) + NonEmpty(b)
    decreases |a|
  {
    if a != [] {
      assert (a + b)[0] == a[0] && (a + b)[1..] == a[1..] + b;
      NonEmptyAppend(a[1..], b);
      Associative([a[0]], NonEmpty(a[1..]), NonEmpty(b));
    } else {
      assert a + b == b;
    }
  }

  /** Rust's `str::split_whitespace`: the non-empty runs of non-whitespace. */
  function SplitWhitespace(s: string): (words: seq<string>)
    ensures forall k :: 0 <= k < |words| ==> words[k] != [] && NoWhitespace(words[k])
  {
    var fields := SplitWhere(s, IsWhitespace);
    var words := NonEmpty(fields);
    assert forall k :: 0 <= k < |words| ==> NoWhitespace(words[k]) by {
      forall k | 0 <= k < |words| ensures NoWhitespace(words[k]) {
        assert words[k] in fields;
      }
    }
    words
  }

  /** All the strings of `ts`, one after another. */
  function Concat(ts: seq<string>): string
    decreases |ts|
  {
    if ts == [] then [] else ts[0] + Concat(ts[1..])
  }

  /** The characters of `s` that are not whitespace, in order. */
  function DropWhitespace(s: string): (r: string)
    decreases |s|
  {
    if s == [] then []
    else if IsWhitespace(s[0]) then DropWhitespace(s[1..])
    else [s[0]] + DropWhitespace(s[1..])
  }

  /** The words of `s`, put together, are the non-whitespace characters of `s`. */
  lemma {:induction false} ConcatSplitWhitespace(s: string)
    ensures Concat(SplitWhitespace(s)) == DropWhitespace(s)
  {
    ConcatNonEmpty(SplitWhere(s, IsWhitespace));
    ConcatFields(s);
  }

  lemma {:induction false} ConcatNonEmpty(ts: seq<string>)
    ensures Concat(NonEmpty(ts)) == Concat(ts)
    decreases |ts|
  {
    if ts != [] {
      ConcatNonEmpty(ts[1..]);
    }
  }

  lemma {:induction false} ConcatFields(s: string)
    ensures Concat(SplitWhere(s, IsWhitespace)) == DropWhitespace(s)
    decreases |s|
  {
    if s != [] {
      var rest := SplitWhere(s[1..], IsWhitespace);
      ConcatFields(s[1..]);
      if IsWhitespace(s[0]) {
        assert ([[]] + rest)[1..] == rest;
      } else {
        var r := [[s[0]] + rest[0]] + rest[1..];
        assert r[1..] == rest[1..];
        assert Concat(rest) == rest[0] + Concat(rest[1..]);
        assert Concat(r) == [s[0]] + (rest[0] + Concat(rest[1..]));
      }
    }
  }

  /** Code-point lexicographic order, the order of Rust's `String::cmp`. */
  predicate LexLe(a: string, b: string)
    decreases |a|
  {
    a == [] || (b != [] && (a[0] < b[0] || (a[0] == b[0] && LexLe(a[1..], b[1..]))))
  }

  lemma {:induction false} LexLeTotal(a: string, b: string)
    ensures LexLe(a, b) || LexLe(b, a)
    decreases |a|
  {
    if a != [] && b != [] && a[0] == b[0] {
      LexLeTotal(a[1..], b[1..]);
    }
  }

  lemma {:induction false} LexLeTransitive(a: string, b: string, c: string)
    requires LexLe(a, b) && LexLe(b, c)
    ensures LexLe(a, c)
    decreases |a|
  {
    if a != [] && a[0] == b[0] && b[0] == c[0] {
      LexLeTransitive(a[1..], b[1..], c[1..]);
    }
  }

  lemma {:induction false} LexLeAntisymmetric(a: string, b: string)
    requires LexLe(a, b) && LexLe(b, a)
    ensures a == b
    decreases |a|
  {
    if a != [] {
      LexLeAntisymmetric(a[1..], b[1..]);
      assert a == [a[0]] + a[1..];
      assert b == [b[0]] + b[1..];
    }
  }

  /** Leading whitespace does not change the words. */
  lemma SplitWhitespaceSkip(c: char, tail: string)
    requires IsWhitespace(c)
    ensures SplitWhitespace([c] + tail) == SplitWhitespace(tail)
  {
    assert ([c] + tail)[1..] == tail;
    var rest := SplitWhere(tail, IsWhitespace);
    assert SplitWhere([c] + tail, IsWhitespace) == [[]] + rest;
    assert ([[]] + rest)[1..] == rest;
  }

  /** A word followed by the end or by whitespace is the first of the words. */
  lemma SplitWhitespaceWord(w: string, tail: string)
    requires w != [] && NoWhitespace(w)
    requires tail == [] || IsWhitespace(tail[0])
    ensures SplitWhitespace(w + tail) == [w] + SplitWhitespace(tail)
  {
    SplitWhereFree(w, IsWhitespace, tail);
    var fields := SplitWhere(tail, IsWhitespace);
    assert fields[0] == [] by {
      if tail != [] {
        assert fields == [[]] + SplitWhere(tail[1..], IsWhitespace);
      }
    }
    assert w + fields[0] == w;
    var all := [w] + fields[1..];
    assert all[1..] == fields[1..];
    assert NonEmpty(all) == [w] + NonEmpty(fields[1..]);
    assert fields == [[]] + fields[1..];
    assert ([[]] + fields[1..])[1..] == fields[1..];
  }

  lemma EmptyHasNoWords()
    ensures SplitWhitespace([]) == []
  {
    assert SplitWhere([], IsWhitespace) == [[]];
    assert NonEmpty([[]]) == NonEmpty([]);
  }
}
