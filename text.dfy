/** The Python string operations the modelled code relies on: `sub in s`,
    `s.split(sep)`, `s.split()` and `s.splitlines()`, on `string`s read as
    sequences of Unicode code points. */
module Text {

  /** `sub` occurs in `s` starting at index `j`. */
  predicate OccursAt(s: string, sub: string, j: nat) {
    j + |sub| <= |s| && s[j..j + |sub|] == sub
  }

  /** The index of the first occurrence of `sub` in `s` at or after `from`,
      or `|s|` when there is none (Python's `s.find(sub, from)`, with `|s|` for `-1`). */
  function Find(s: string, sub: string, from: nat): (i: nat)
    requires |sub| > 0 && from <= |s|
    ensures from <= i <= |s|
    ensures i < |s| ==> OccursAt(s, sub, i)
    ensures forall j :: from <= j < i ==> !OccursAt(s, sub, j)
    decreases |s| - from
  {
    if from + |sub| > |s| then |s|
    else if s[from..from + |sub|] == sub then from
    else Find(s, sub, from + 1)
  }

  /** Python's `sub in s` for a non-empty `sub`. */
  predicate Contains(s: string, sub: string)
    requires |sub| > 0
  {
    Find(s, sub, 0) < |s|
  }

  lemma FindIsFirst(s: string, sub: string, from: nat, j: nat)
    requires |sub| > 0 && from <= j && from <= |s| && OccursAt(s, sub, j)
    ensures Find(s, sub, from) <= j
  {
  }

  /** `sub in s` holds exactly when `sub` occurs at some index of `s`. */
  lemma ContainsIff(s: string, sub: string)
    requires |sub| > 0
    ensures Contains(s, sub) <==> exists j: nat :: OccursAt(s, sub, j)
  {
    if j: nat :| OccursAt(s, sub, j) {
      FindIsFirst(s, sub, 0, j);
    }
  }

  /** Python's `s.split(sep)` for a non-empty separator: the pieces between
      the non-overlapping occurrences of `sep`, found from left to right. */
  function Split(s: string, sep: string): (fields: seq<string>)
    requires |sep| > 0
    ensures |fields| >= 1
    decreases |s|
  {
    var i := Find(s, sep, 0);
    if i == |s| then [s] else [s[..i]] + Split(s[i + |sep|..], sep)
  }

  /** Python's `sep.join(fields)`. */
  function Join(fields: seq<string>, sep: string): string
  {
    if |fields| == 0 then ""
    else if |fields| == 1 then fields[0]
    else fields[0] + sep + Join(fields[1..], sep)
  }

  /** Joining the pieces of a split with the separator gives back the string. */
  lemma {:induction false} JoinSplit(s: string, sep: string)
    requires |sep| > 0
    ensures Join(Split(s, sep), sep) == s
    decreases |s|
  {
    var i := Find(s, sep, 0);
    if i < |s| {
      var rest := s[i + |sep|..];
      assert Split(s, sep) == [s[..i]] + Split(rest, sep);
      JoinSplit(rest, sep);
      JoinCons(s[..i], Split(rest, sep), sep);
      assert s[i..i + |sep|] == sep;
      assert s == s[..i] + s[i..i + |sep|] + rest;
    }
  }

  lemma JoinCons(head: string, rest: seq<string>, sep: string)
    requires |rest| >= 1
    ensures Join([head] + rest, sep) == head + sep + Join(rest, sep)
  {
    assert ([head] + rest)[1..] == rest;
  }

  /** No piece of a split contains the separator. */
  lemma {:induction false} SplitFieldsAvoidSeparator(s: string, sep: string)
    requires |sep| > 0
    ensures forall f :: f in Split(s, sep) ==> !Contains(f, sep)
    decreases |s|
  {
    var i := Find(s, sep, 0);
    if i == |s| {
      assert Split(s, sep) == [s];
    } else {
      var head := s[..i];
      if Contains(head, sep) {
        var j := Find(head, sep, 0);
        assert head[j..j + |sep|] == s[j..j + |sep|];
        assert OccursAt(s, sep, j);
      }
      SplitFieldsAvoidSeparator(s[i + |sep|..], sep);
    }
  }

  /** A split gives a single piece exactly when the separator does not occur. */
  lemma SplitSingleIff(s: string, sep: string)
    requires |sep| > 0
    ensures |Split(s, sep)| == 1 <==> !Contains(s, sep)
  {
  }

  /** If `sep` first occurs in `s` at `|head|`, the split of `s` starts with `head`. */
  lemma SplitAtFirst(head: string, sep: string, tail: string)
    requires |sep| > 0
    requires Find(head + sep + tail, sep, 0) == |head|
    ensures Split(head + sep + tail, sep) == [head] + Split(tail, sep)
  {
    var s := head + sep + tail;
    assert s[..|head|] == head;
    assert s[|head| + |sep|..] == tail;
  }

  /** A one-character separator that occurs in none of the pieces is found
      exactly where the first piece ends. */
  lemma FindCharAfter(head: string, sep: string, tail: string)
    requires |sep| == 1 && sep[0] !in head
    ensures Find(head + sep + tail, sep, 0) == |head|
  {
    var s := head + sep + tail;
    assert OccursAt(s, sep, |head|) by { assert s[|head|..|head| + 1] == sep; }
    FindIsFirst(s, sep, 0, |head|);
    forall k | 0 <= k < |head| ensures !OccursAt(s, sep, k) {
      assert s[k..k + 1] == [head[k]];
      assert head[k] in head;
    }
  }

  /** For a one-character separator, splitting undoes joining pieces that do
      not contain it. */
  lemma {:induction false} SplitJoinChar(fields: seq<string>, sep: string)
    requires |sep| == 1 && |fields| >= 1
    requires forall f :: f in fields ==> sep[0] !in f
    ensures Split(Join(fields, sep), sep) == fields
    decreases |fields|
  {
    var s := Join(fields, sep);
    if |fields| == 1 {
      assert fields[0] in fields;
      forall k | 0 <= k < |s| ensures !OccursAt(s, sep, k) {
        assert s[k..k + 1] == [s[k]];
        assert s[k] in fields[0];
      }
    } else {
      var tail := Join(fields[1..], sep);
      FindCharAfter(fields[0], sep, tail);
      SplitAtFirst(fields[0], sep, tail);
      assert fields[0] in fields;
      assert forall f :: f in fields[1..] ==> f in fields;
      SplitJoinChar(fields[1..], sep);
      assert fields == [fields[0]] + fields[1..];
    }
  }

  /** The characters at which Python's `str.splitlines` ends a line. */
  predicate IsLineBreak(c: char) {
    c in {'\n', '\r', '\U{b}', '\U{c}', '\U{1c}', '\U{1d}', '\U{1e}', '\U{85}', '\U{2028}', '\U{2029}'}
  }

  /** The length of the text before the first line break of `s`. */
  function LineLength(s: string): (n: nat)
    ensures n <= |s|
    ensures forall k :: 0 <= k < n ==> !IsLineBreak(s[k])
    ensures n < |s| ==> IsLineBreak(s[n])
  {
    if s == [] || IsLineBreak(s[0]) then 0 else 1 + LineLength(s[1..])
  }

  /** The number of characters of the line break at `n`: two for `"\r\n"`, one otherwise. */
  function BreakLength(s: string, n: nat): nat
    requires n < |s|
  {
    if s[n] == '\r' && n + 1 < |s| && s[n + 1] == '\n' then 2 else 1
  }

  /** Python's `s.splitlines()`: the lines of `s` without their line breaks;
      a final line break does not start another, empty line. */
  function SplitLines(s: string): (lines: seq<string>)
    ensures forall l, c :: l in lines && c in l ==> !IsLineBreak(c)
    ensures |lines| <= |s|
    decreases |s|
  {
    if s == [] then []
    else
      var n := LineLength(s);
      if n == |s| then [s]
      else [s[..n]] + SplitLines(s[n + BreakLength(s, n)..])
  }

  /** The text of `lines`, each ended by `"\n"`, as `git diff` prints its output. */
  function Terminated(lines: seq<string>): string
  {
    if lines == [] then "" else lines[0] + "\n" + Terminated(lines[1..])
  }

  /** A line without line breaks, ended by `"\n"`, is the first line of the text. */
  lemma SplitLinesCons(l: string, rest: string)
    requires forall c :: c in l ==> !IsLineBreak(c)
    ensures SplitLines(l + "\n" + rest) == [l] + SplitLines(rest)
  {
    var s := l + "\n" + rest;
    assert forall k :: 0 <= k < |l| ==> s[k] == l[k] && l[k] in l;
    assert IsLineBreak(s[|l|]);
    var n := LineLength(s);
    assert n == |l|;
    assert s[..n] == l;
    assert s[n + BreakLength(s, n)..] == rest;
  }

  /** Splitting newline-terminated lines that hold no line break gives back the lines. */
  lemma {:induction false} SplitLinesTerminated(lines: seq<string>)
    requires forall l, c :: l in lines && c in l ==> !IsLineBreak(c)
    ensures SplitLines(Terminated(lines)) == lines
    decreases |lines|
  {
    if lines != [] {
      var l := lines[0];
      assert l in lines;
      SplitLinesCons(l, Terminated(lines[1..]));
      assert forall x :: x in lines[1..] ==> x in lines;
      SplitLinesTerminated(lines[1..]);
      assert lines == [l] + lines[1..];
    }
  }

  /** The characters Python's `str.isspace` accepts, at which `s.split()` splits. */
  predicate IsSpace(c: char) {
    || c in {' ', '\t', '\n', '\r', '\U{b}', '\U{c}', '\U{1c}', '\U{1d}', '\U{1e}', '\U{1f}'}
    || c in {'\U{85}', '\U{a0}', '\U{1680}', '\U{2028}', '\U{2029}', '\U{202f}', '\U{205f}', '\U{3000}'}
    || ('\U{2000}' <= c <= '\U{200a}')
  }

  /** The length of the run of non-space characters that starts `s`. */
  function WordLength(s: string): (n: nat)
    ensures n <= |s|
    ensures forall k :: 0 <= k < n ==> !IsSpace(s[k])
    ensures n < |s| ==> IsSpace(s[n])
  {
    if s == [] || IsSpace(s[0]) then 0 else 1 + WordLength(s[1..])
  }

  /** A word as `s.split()` yields it: not empty, and no space in it. */
  predicate IsWord(w: string) {
    w != "" && forall c :: c in w ==> !IsSpace(c)
  }

  /** Python's `s.split()` with no argument: the maximal runs of non-space characters. */
  function SplitWhitespace(s: string): (words: seq<string>)
    ensures forall w :: w in words ==> IsWord(w)
    decreases |s|
  {
    if s == [] then []
    else if IsSpace(s[0]) then SplitWhitespace(s[1..])
    else
      var n := WordLength(s);
      [s[..n]] + SplitWhitespace(s[n..])
  }

  /** A word with no spaces, followed by a space or by nothing, is read back whole. */
  lemma WordLengthOf(w: string, rest: string)
    requires forall c :: c in w ==> !IsSpace(c)
    requires rest == [] || IsSpace(rest[0])
    ensures WordLength(w + rest) == |w|
  {
    var s := w + rest;
    assert forall k :: 0 <= k < |w| ==> s[k] == w[k] && w[k] in w;
    assert |w| < |s| ==> s[|w|] == rest[0];
  }

  /** Splitting on whitespace undoes joining non-empty words that hold no space with `" "`. */
  lemma {:induction false} SplitWhitespaceJoin(words: seq<string>)
    requires forall w :: w in words ==> IsWord(w)
    ensures SplitWhitespace(Join(words, " ")) == words
    decreases |words|
  {
    if |words| == 1 {
      var w := words[0];
      assert w in words;
      WordLengthOf(w, []);
      assert w + [] == w;
      assert w[|w|..] == [];
    } else if |words| > 1 {
      var w := words[0];
      assert w in words;
      assert forall x :: x in words[1..] ==> x in words;
      var tail := Join(words[1..], " ");
      var s := w + " " + tail;
      assert s == Join(words, " ");
      WordLengthOf(w, " " + tail);
      assert s == w + (" " + tail);
      assert s[..|w|] == w;
      assert s[|w|..] == " " + tail;
      assert (" " + tail)[1..] == tail;
      SplitWhitespaceJoin(words[1..]);
      assert words == [w] + words[1..];
    }
  }

  /** A non-empty string of printable ASCII characters other than the space is a word. */
  lemma PrintableIsWord(w: string)
    requires w != [] && forall i :: 0 <= i < |w| ==> '!' <= w[i] <= '~'
    ensures IsWord(w)
  {
  }

  /** Joining four words with single spaces. */
  lemma JoinFour(a: string, b: string, c: string, d: string)
    ensures Join([a, b, c, d], " ") == a + " " + b + " " + c + " " + d
  {
    assert [c, d][1..] == [d];
    assert Join([c, d], " ") == c + " " + d;
    assert [b, c, d][1..] == [c, d];
    assert Join([b, c, d], " ") == b + " " + (c + " " + d);
    assert [a, b, c, d][1..] == [b, c, d];
    assert Join([a, b, c, d], " ") == a + " " + (b + " " + (c + " " + d));
  }

  /** Four words separated by single spaces are read back as those words. */
  lemma FourWords(a: string, b: string, c: string, d: string)
    requires IsWord(a) && IsWord(b) && IsWord(c) && IsWord(d)
    ensures SplitWhitespace(a + " " + b + " " + c + " " + d) == [a, b, c, d]
  {
    JoinFour(a, b, c, d);
    SplitWhitespaceJoin([a, b, c, d]);
  }

  /** A word and a space in front of a text add that word in front of its words. */
  lemma WordInFront(w: string, rest: string)
    requires IsWord(w)
    ensures SplitWhitespace(w + " " + rest) == [w] + SplitWhitespace(rest)
  {
    var s := w + " " + rest;
    WordLengthOf(w, " " + rest);
    assert s == w + (" " + rest);
    assert s[..|w|] == w;
    assert s[|w|..] == " " + rest;
    assert (" " + rest)[1..] == rest;
  }
}
