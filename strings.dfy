/** The JavaScript string operations the dashboard is built from, on
    `seq<char>`: the `\s` character class, `replace(/\s+/g, ' ')`, `trim`,
    `split` and `join` on a separator, `includes`, ASCII `toLowerCase` and
    `replace` of one character by a string. */
module Strings {

  /** The characters JavaScript's `\s` matches; `trim` removes the same set. */
  predicate IsWhitespace(c: char)
  {
    || c == ' ' || c == '\t' || c == '\n' || c == '\r' || c == '\U{000B}' || c == '\U{000C}'
    || c == '\U{00A0}' || c == '\U{1680}' || ('\U{2000}' <= c <= '\U{200A}')
    || c == '\U{2028}' || c == '\U{2029}' || c == '\U{202F}' || c == '\U{205F}'
    || c == '\U{3000}' || c == '\U{FEFF}'
  }

  /** The number of times `c` occurs in `s`. */
  function Count(s: string, c: char): nat
  {
    if s == [] then 0 else (if s[0] == c then 1 else 0) + Count(s[1..], c)
  }

  lemma {:induction false} CountConcat(a: string, b: string, c: char)
    ensures Count(a + b, c) == Count(a, c) + Count(b, c)
  {
    if a != [] {
      assert (a + b)[0] == a[0] && (a + b)[1..] == a[1..] + b;
      CountConcat(a[1..], b, c);
      assert Count(a + b, c) == (if a[0] == c then 1 else 0) + Count(a[1..] + b, c);
    } else {
      assert a + b == b;
    }
  }

  lemma {:induction false} CountAbsent(s: string, c: char)
    ensures Count(s, c) == 0 <==> c !in s
  {
    if s != [] {
      CountAbsent(s[1..], c);
      assert s == [s[0]] + s[1..];
    }
  }

  /** `p` occurs in `s` starting at position `k`. */
  ghost predicate OccursAt(s: string, k: int, p: string)
  {
    0 <= k && k + |p| <= |s| && s[k..k + |p|] == p
  }

  /** `replace(/c/g, rep)`: every occurrence of the character `c` becomes `rep`. */
  function ReplaceChar(s: string, c: char, rep: string): (r: string)
    ensures s == [] ==> r == []
  {
    if s == [] then [] else (if s[0] == c then rep else [s[0]]) + ReplaceChar(s[1..], c, rep)
  }

  /** Each occurrence of `c` grows the text by `|rep| - 1`. */
  lemma {:induction false} ReplaceLength(s: string, c: char, rep: string)
    ensures |ReplaceChar(s, c, rep)| == |s| + (|rep| - 1) * Count(s, c)
  {
    if s != [] {
      ReplaceLength(s[1..], c, rep);
    }
  }

  /** A character other than `c` that `rep` does not hold occurs as often
      as before. */
  lemma {:induction false} ReplaceCount(s: string, c: char, rep: string, d: char)
    requires d != c && d !in rep
    ensures Count(ReplaceChar(s, c, rep), d) == Count(s, d)
  {
    if s != [] {
      var head := if s[0] == c then rep else [s[0]];
      ReplaceCount(s[1..], c, rep, d);
      CountConcat(head, ReplaceChar(s[1..], c, rep), d);
      CountAbsent(rep, d);
      assert Count([s[0]], d) == (if s[0] == d then 1 else 0) + Count([s[0]][1..], d);
    }
  }

  /** `c` is gone afterwards unless `rep` brings it back. */
  lemma {:induction false} ReplaceRemoves(s: string, c: char, rep: string)
    requires c !in rep
    ensures c !in ReplaceChar(s, c, rep)
  {
    if s != [] {
      ReplaceRemoves(s[1..], c, rep);
    }
  }

  /** When `c` occurs, the first character of `rep` occurs afterwards. */
  lemma {:induction false} ReplaceInserts(s: string, c: char, rep: string)
    requires c in s && rep != []
    ensures rep[0] in ReplaceChar(s, c, rep)
  {
    if s[0] != c {
      ReplaceInserts(s[1..], c, rep);
    }
  }

  lemma {:induction false} ReplaceKeeps(s: string, c: char, rep: string, d: char)
    requires d in s && d != c
    ensures d in ReplaceChar(s, c, rep)
  {
    if s[0] != d {
      ReplaceKeeps(s[1..], c, rep, d);
    }
  }

  lemma {:induction false} ReplaceConcat(a: string, b: string, c: char, rep: string)
    ensures ReplaceChar(a + b, c, rep) == ReplaceChar(a, c, rep) + ReplaceChar(b, c, rep)
  {
    if a == [] {
      assert a + b == b;
    } else {
      assert (a + b)[0] == a[0] && (a + b)[1..] == a[1..] + b;
      ReplaceConcat(a[1..], b, c, rep);
    }
  }

  lemma {:induction false} ReplaceAbsent(s: string, c: char, rep: string)
    requires c !in s
    ensures ReplaceChar(s, c, rep) == s
  {
    if s != [] {
      ReplaceAbsent(s[1..], c, rep);
      assert [s[0]] + s[1..] == s;
    }
  }

  /** No two adjacent characters are both whitespace. */
  ghost predicate NoWhitespaceRun(s: string)
  {
    forall i :: 0 <= i < |s| - 1 ==> !(IsWhitespace(s[i]) && IsWhitespace(s[i + 1]))
  }

  /** The only whitespace character in `s`, if any, is the plain space. */
  ghost predicate OnlySpaces(s: string)
  {
    forall i :: 0 <= i < |s| && IsWhitespace(s[i]) ==> s[i] == ' '
  }

  /** A text whose only whitespace is the space holds no other whitespace
      character, a line break in particular. */
  lemma OnlySpacesExcludes(s: string, c: char)
    requires OnlySpaces(s) && IsWhitespace(c) && c != ' '
    ensures c !in s
  {
    forall i | 0 <= i < |s| ensures s[i] != c {
    }
  }

  /** The non-whitespace characters of `s`, in order. */
  function Visible(s: string): string
  {
    if s == [] then [] else (if IsWhitespace(s[0]) then [] else [s[0]]) + Visible(s[1..])
  }

  /** `s` without its leading whitespace (`trimStart`). */
  function TrimStart(s: string): (r: string)
    ensures |r| <= |s| && r == s[|s| - |r|..]
    ensures forall i :: 0 <= i < |s| - |r| ==> IsWhitespace(s[i])
    ensures r != [] ==> !IsWhitespace(r[0])
    ensures Visible(r) == Visible(s)
  {
    if s != [] && IsWhitespace(s[0]) then TrimStart(s[1..]) else s
  }

  lemma {:induction false} VisibleConcat(a: string, b: string)
    ensures Visible(a + b) == Visible(a) + Visible(b)
  {
    if a == [] {
      assert a + b == b;
    } else {
      assert (a + b)[0] == a[0] && (a + b)[1..] == a[1..] + b;
      VisibleConcat(a[1..], b);
    }
  }

  /** `s` without its trailing whitespace (`trimEnd`). */
  function TrimEnd(s: string): (r: string)
    ensures |r| <= |s| && r == s[..|r|]
    ensures forall i :: |r| <= i < |s| ==> IsWhitespace(s[i])
    ensures r != [] ==> !IsWhitespace(r[|r| - 1])
    ensures Visible(r) == Visible(s)
  {
    if s != [] && IsWhitespace(s[|s| - 1]) then
      var init := s[..|s| - 1];
      VisibleConcat(init, [s[|s| - 1]]);
      assert init + [s[|s| - 1]] == s;
      TrimEnd(init)
    else s
  }

  /** `trim`: no whitespace at either end, and nothing but whitespace removed. */
  function Trim(s: string): (r: string)
    ensures r != [] ==> !IsWhitespace(r[0]) && !IsWhitespace(r[|r| - 1])
    ensures exists k :: OccursAt(s, k, r)
    ensures Visible(r) == Visible(s)
  {
    var t := TrimStart(s);
    var r := TrimEnd(t);
    assert OccursAt(s, |s| - |t|, r);
    r
  }

  /** Trimming a collapsed text leaves it collapsed. */
  lemma TrimKeepsCollapsed(c: string)
    requires NoWhitespaceRun(c) && OnlySpaces(c)
    ensures NoWhitespaceRun(Trim(c)) && OnlySpaces(Trim(c))
  {
    var front := TrimStart(c);
    assert front == c[|c| - |front|..|c|];
    SliceKeepsNoWhitespaceRun(c, |c| - |front|, |c|);
    SliceKeepsOnlySpaces(c, |c| - |front|, |c|);
    var t := TrimEnd(front);
    assert t == front[0..|t|];
    SliceKeepsNoWhitespaceRun(front, 0, |t|);
    SliceKeepsOnlySpaces(front, 0, |t|);
    assert Trim(c) == t;
  }

  lemma SliceKeepsNoWhitespaceRun(s: string, i: nat, j: nat)
    requires i <= j <= |s| && NoWhitespaceRun(s)
    ensures NoWhitespaceRun(s[i..j])
  {
    forall k | 0 <= k < j - i - 1
      ensures !(IsWhitespace(s[i..j][k]) && IsWhitespace(s[i..j][k + 1]))
    {
      assert s[i..j][k] == s[i + k] && s[i..j][k + 1] == s[i + k + 1];
    }
  }

  lemma SliceKeepsOnlySpaces(s: string, i: nat, j: nat)
    requires i <= j <= |s| && OnlySpaces(s)
    ensures OnlySpaces(s[i..j])
  {
    forall k | 0 <= k < j - i && IsWhitespace(s[i..j][k]) ensures s[i..j][k] == ' ' {
      assert s[i..j][k] == s[i + k];
    }
  }

  /** `replace(/\s+/g, ' ')`: every maximal run of whitespace becomes one
      space. Scanning left to right, a whitespace character followed by
      more whitespace is dropped, and the last one of a run becomes ' '. */
  function CollapseWhitespace(s: string): (r: string)
    ensures |r| <= |s|
    ensures r == [] <==> s == []
    ensures s != [] ==> (IsWhitespace(r[0]) <==> IsWhitespace(s[0]))
  {
    if s == [] then []
    else if IsWhitespace(s[0]) then
      (if |s| > 1 && IsWhitespace(s[1]) then CollapseWhitespace(s[1..]) else [' '] + CollapseWhitespace(s[1..]))
    else [s[0]] + CollapseWhitespace(s[1..])
  }

  /** A collapsed text has no whitespace run, no whitespace but the space,
      and every visible character of the input, in order. */
  lemma {:induction false} CollapseWhitespaceShape(s: string)
    ensures var r := CollapseWhitespace(s);
            NoWhitespaceRun(r) && OnlySpaces(r) && Visible(r) == Visible(s)
  {
    if s != [] {
      var tail := CollapseWhitespace(s[1..]);
      CollapseWhitespaceShape(s[1..]);
      if IsWhitespace(s[0]) {
        assert Visible(s) == Visible(s[1..]);
        if !(|s| > 1 && IsWhitespace(s[1])) {
          ConsKeepsShape(' ', tail);
        }
      } else {
        ConsKeepsShape(s[0], tail);
      }
    }
  }

  /** Putting a space before a text that starts with a visible character,
      or a visible character before any text, keeps it collapsed. */
  lemma ConsKeepsShape(c: char, tail: string)
    requires NoWhitespaceRun(tail) && OnlySpaces(tail)
    requires c == ' ' || !IsWhitespace(c)
    requires IsWhitespace(c) && tail != [] ==> !IsWhitespace(tail[0])
    ensures NoWhitespaceRun([c] + tail) && OnlySpaces([c] + tail)
    ensures Visible([c] + tail) == (if IsWhitespace(c) then [] else [c]) + Visible(tail)
  {
    var r := [c] + tail;
    assert r[1..] == tail;
    forall i | 0 <= i < |r| - 1 ensures !(IsWhitespace(r[i]) && IsWhitespace(r[i + 1])) {
      if i > 0 {
        assert r[i] == tail[i - 1] && r[i + 1] == tail[i];
      }
    }
    forall i | 0 <= i < |r| && IsWhitespace(r[i]) ensures r[i] == ' ' {
      if i > 0 {
        assert r[i] == tail[i - 1];
      }
    }
  }

  /** The length of the word `s` starts with: its leading non-whitespace characters. */
  function WordLength(s: string): (n: nat)
    ensures n <= |s|
    ensures forall i :: 0 <= i < n ==> !IsWhitespace(s[i])
    ensures n < |s| ==> IsWhitespace(s[n])
  {
    if s == [] || IsWhitespace(s[0]) then 0 else 1 + WordLength(s[1..])
  }

  /** The words of `s`: its maximal runs of non-whitespace characters, in order. */
  function Words(s: string): seq<string>
    decreases |s|
  {
    if s == [] then []
    else if IsWhitespace(s[0]) then Words(s[1..])
    else
      var n := WordLength(s);
      [s[..n]] + Words(s[n..])
  }

  /** A word followed by nothing or by whitespace is the first word. */
  lemma WordsAfterWord(w: string, t: string)
    requires w != [] && forall i :: 0 <= i < |w| ==> !IsWhitespace(w[i])
    requires t == [] || IsWhitespace(t[0])
    ensures Words(w + t) == [w] + Words(t)
  {
    var s := w + t;
    assert s[0] == w[0];
    WordLengthOf(w, t);
    assert s[..|w|] == w && s[|w|..] == t;
  }

  lemma {:induction false} WordLengthOf(w: string, t: string)
    requires forall i :: 0 <= i < |w| ==> !IsWhitespace(w[i])
    requires t == [] || IsWhitespace(t[0])
    ensures WordLength(w + t) == |w|
  {
    if w == [] {
      assert w + t == t;
    } else {
      assert (w + t)[0] == w[0] && (w + t)[1..] == w[1..] + t;
      WordLengthOf(w[1..], t);
    }
  }

  /** Whitespace in front of a text adds no word. */
  lemma WordsAfterSpace(c: char, t: string)
    requires IsWhitespace(c)
    ensures Words([c] + t) == Words(t)
  {
    assert ([c] + t)[1..] == t;
  }

  /** Whitespace at the end of a text adds no word. */
  lemma {:induction false} WordsBeforeSpace(a: string, c: char)
    requires IsWhitespace(c)
    ensures Words(a + [c]) == Words(a)
    decreases |a|
  {
    if a == [] {
      WordsAfterSpace(c, []);
      assert a + [c] == [c] + [];
    } else if IsWhitespace(a[0]) {
      assert a + [c] == [a[0]] + (a[1..] + [c]);
      WordsAfterSpace(a[0], a[1..] + [c]);
      WordsBeforeSpace(a[1..], c);
    } else {
      var n := WordLength(a);
      var w, rest := a[..n], a[n..];
      assert a == w + rest && a + [c] == w + (rest + [c]);
      assert (rest + [c])[0] == if rest == [] then c else rest[0];
      WordsAfterWord(w, rest);
      WordsAfterWord(w, rest + [c]);
      WordsBeforeSpace(rest, c);
    }
  }

  lemma {:induction false} WordsTrimStart(s: string)
    ensures Words(TrimStart(s)) == Words(s)
  {
    if s != [] && IsWhitespace(s[0]) {
      WordsTrimStart(s[1..]);
    }
  }

  lemma {:induction false} WordsTrimEnd(s: string)
    ensures Words(TrimEnd(s)) == Words(s)
    decreases |s|
  {
    if s != [] && IsWhitespace(s[|s| - 1]) {
      var init := s[..|s| - 1];
      assert init + [s[|s| - 1]] == s;
      WordsBeforeSpace(init, s[|s| - 1]);
      WordsTrimEnd(init);
    }
  }

  /** Trimming keeps every word. */
  lemma WordsTrim(s: string)
    ensures Words(Trim(s)) == Words(s)
  {
    WordsTrimStart(s);
    WordsTrimEnd(TrimStart(s));
  }

  /** Collapsing copies a leading word unchanged. */
  lemma {:induction false} CollapseKeepsWord(s: string)
    ensures var n := WordLength(s);
            CollapseWhitespace(s) == s[..n] + CollapseWhitespace(s[n..])
  {
    if s == [] || IsWhitespace(s[0]) {
      WholeSlices(s);
    } else {
      var t := s[1..];
      var m := WordLength(t);
      CollapseKeepsWord(t);
      ConsSlices(s, m);
      AppendAssoc([s[0]], t[..m], CollapseWhitespace(t[m..]));
    }
  }

  lemma WholeSlices(s: string)
    ensures s[..0] == [] && s[0..] == s && [] + s == s
  {
  }

  /** Slicing after the first character and slicing the whole text agree. */
  lemma ConsSlices(s: string, m: nat)
    requires m < |s|
    ensures s[..m + 1] == [s[0]] + s[1..][..m] && s[m + 1..] == s[1..][m..]
  {
  }

  lemma AppendAssoc(a: string, b: string, c: string)
    ensures a + (b + c) == (a + b) + c
  {
  }

  /** Collapsing keeps the words, in order. */
  lemma {:induction false} CollapseWhitespaceWords(s: string)
    ensures Words(CollapseWhitespace(s)) == Words(s)
    decreases |s|
  {
    if s == [] {
    } else if IsWhitespace(s[0]) {
      CollapseWhitespaceWords(s[1..]);
      WordsAfterSpace(' ', CollapseWhitespace(s[1..]));
    } else {
      var n := WordLength(s);
      CollapseWhitespaceWords(s[n..]);
      CollapseKeepsWord(s);
      WordThenSameWords(s, n, CollapseWhitespace(s), CollapseWhitespace(s[n..]));
    }
  }

  /** Collapsing keeps whether the text ends in whitespace. */
  lemma {:induction false} CollapseWhitespaceEnd(s: string)
    requires s != []
    ensures var r := CollapseWhitespace(s);
            IsWhitespace(r[|r| - 1]) <==> IsWhitespace(s[|s| - 1])
  {
    var r := CollapseWhitespace(s);
    var t := s[1..];
    if t == [] {
      assert s == [s[0]];
    } else {
      CollapseWhitespaceEnd(t);
      var tail := CollapseWhitespace(t);
      assert s[|s| - 1] == t[|t| - 1];
      assert r[|r| - 1] == tail[|tail| - 1];
    }
  }

  /** A text starting with a word, shown as that word before a text with
      the words of the rest after the word, has the words of the text. */
  lemma WordThenSameWords(s: string, n: nat, r: string, tail: string)
    requires n == WordLength(s) && s != [] && !IsWhitespace(s[0])
    requires r == s[..n] + tail
    requires tail == [] || IsWhitespace(tail[0])
    requires Words(tail) == Words(s[n..])
    ensures Words(r) == Words(s)
  {
    var w, rest := s[..n], s[n..];
    assert s == w + rest;
    WordBeforeSameWords(w, rest, tail);
  }

  /** Texts with the same words, each empty or starting with whitespace,
      still have the same words after the same word is put in front. */
  lemma WordBeforeSameWords(w: string, rest: string, tail: string)
    requires w != [] && forall i :: 0 <= i < |w| ==> !IsWhitespace(w[i])
    requires rest == [] || IsWhitespace(rest[0])
    requires tail == [] || IsWhitespace(tail[0])
    requires Words(tail) == Words(rest)
    ensures Words(w + tail) == Words(w + rest)
  {
    WordsAfterWord(w, rest);
    WordsAfterWord(w, tail);
  }

  /** A text with single spaces between words and none at either end is
      its words joined by single spaces. */
  lemma {:induction false} CanonicalText(t: string)
    requires NoWhitespaceRun(t) && OnlySpaces(t)
    requires t != [] ==> !IsWhitespace(t[0]) && !IsWhitespace(t[|t| - 1])
    ensures Words(t) == [] <==> t == []
    ensures t != [] ==> t == Join(Words(t), ' ')
    decreases |t|
  {
    if t != [] {
      var n := WordLength(t);
      assert t == t[..n] + t[n..];
      WordsAfterWord(t[..n], t[n..]);
      if n < |t| {
        var rest := t[n + 1..];
        CanonicalRest(t, n);
        CanonicalText(rest);
        CanonicalStep(t, n);
      } else {
        assert t[n..] == [];
      }
    }
  }

  /** After the first word of a canonical text come one space and a
      canonical text. */
  lemma CanonicalRest(t: string, n: nat)
    requires NoWhitespaceRun(t) && OnlySpaces(t)
    requires t != [] && !IsWhitespace(t[0]) && !IsWhitespace(t[|t| - 1])
    requires n == WordLength(t) && n < |t|
    ensures n + 1 < |t| && t[n] == ' '
    ensures var rest := t[n + 1..];
            && NoWhitespaceRun(rest) && OnlySpaces(rest)
            && !IsWhitespace(rest[0]) && !IsWhitespace(rest[|rest| - 1])
  {
    SliceKeepsNoWhitespaceRun(t, n + 1, |t|);
    SliceKeepsOnlySpaces(t, n + 1, |t|);
  }

  lemma CanonicalStep(t: string, n: nat)
    requires n == WordLength(t) && n + 1 < |t| && t[n] == ' '
    requires !IsWhitespace(t[0])
    requires Words(t) == [t[..n]] + Words(t[n..])
    requires var rest := t[n + 1..]; Words(rest) != [] && rest == Join(Words(rest), ' ')
    ensures Words(t) != [] && t == Join(Words(t), ' ')
  {
    var rest := t[n + 1..];
    assert t[n..] == [t[n]] + rest;
    WordsAfterSpace(t[n], rest);
    assert ([t[..n]] + Words(rest))[1..] == Words(rest);
    assert t == t[..n] + [' '] + rest;
  }

  /** `includes`: `p` occurs in `s` as a contiguous block. */
  predicate Contains(s: string, p: string)
    decreases |s|
  {
    p <= s || (s != [] && Contains(s[1..], p))
  }

  lemma ContainsEmpty(s: string)
    ensures Contains(s, "")
  {
  }

  /** `Contains` agrees with the definition by position. */
  lemma {:induction false} ContainsAt(s: string, p: string)
    ensures Contains(s, p) <==> exists k :: OccursAt(s, k, p)
  {
    if p <= s {
      assert OccursAt(s, 0, p);
    } else if s != [] {
      ContainsAt(s[1..], p);
      if exists k :: OccursAt(s[1..], k, p) {
        var k :| OccursAt(s[1..], k, p);
        assert s[k + 1..k + 1 + |p|] == s[1..][k..k + |p|];
        assert OccursAt(s, k + 1, p);
      }
      if exists k :: OccursAt(s, k, p) {
        var k :| OccursAt(s, k, p);
        if k != 0 {
          assert s[1..][k - 1..k - 1 + |p|] == s[k..k + |p|];
          assert OccursAt(s[1..], k - 1, p);
        }
      }
    }
  }

  /** ASCII `toLowerCase` of one character. */
  function LowerChar(c: char): char
  {
    if 'A' <= c <= 'Z' then (c as int - 'A' as int + 'a' as int) as char else c
  }

  /** ASCII `toLowerCase`. */
  function Lower(s: string): (r: string)
    ensures |r| == |s|
    ensures forall i :: 0 <= i < |s| ==> r[i] == LowerChar(s[i])
  {
    if s == [] then [] else [LowerChar(s[0])] + Lower(s[1..])
  }

  /** Lowering twice is lowering once. */
  lemma LowerIdempotent(s: string)
    ensures Lower(Lower(s)) == Lower(s)
  {
    assert forall i :: 0 <= i < |s| ==> LowerChar(LowerChar(s[i])) == LowerChar(s[i]);
  }

  /** `split(sep)`: the pieces between separators; JavaScript yields one
      piece, the empty string, for the empty input. */
  function Split(s: string, sep: char): (pieces: seq<string>)
    ensures |pieces| == Count(s, sep) + 1
    ensures forall i :: 0 <= i < |pieces| ==> sep !in pieces[i]
  {
    if s == [] then [[]]
    else
      var rest := Split(s[1..], sep);
      if s[0] == sep then [[]] + rest
      else [[s[0]] + rest[0]] + rest[1..]
  }

  /** `join(sep)`. */
  function Join(pieces: seq<string>, sep: char): string
    requires |pieces| >= 1
  {
    if |pieces| == 1 then pieces[0] else pieces[0] + [sep] + Join(pieces[1..], sep)
  }

  /** Joining the pieces gives the input back. */
  lemma {:induction false} JoinSplit(s: string, sep: char)
    ensures Join(Split(s, sep), sep) == s
  {
    if s != [] {
      JoinSplit(s[1..], sep);
      var rest := Split(s[1..], sep);
      if s[0] == sep {
        assert ([[]] + rest)[1..] == rest;
      } else {
        var pieces := [[s[0]] + rest[0]] + rest[1..];
        if |rest| > 1 {
          assert pieces[1..] == rest[1..];
          assert Join(rest, sep) == rest[0] + [sep] + Join(rest[1..], sep);
        }
      }
    }
  }

  /** Splitting a join of separator-free pieces gives the pieces back. */
  lemma {:induction false} SplitJoin(pieces: seq<string>, sep: char)
    requires |pieces| >= 1
    requires forall i :: 0 <= i < |pieces| ==> sep !in pieces[i]
    ensures Split(Join(pieces, sep), sep) == pieces
  {
    if |pieces| == 1 {
      SplitNoSeparator(pieces[0], sep);
    } else {
      SplitJoin(pieces[1..], sep);
      SplitAfterPiece(pieces[0], Join(pieces[1..], sep), sep);
      assert [pieces[0]] + pieces[1..] == pieces;
    }
  }

  lemma {:induction false} SplitNoSeparator(s: string, sep: char)
    requires sep !in s
    ensures Split(s, sep) == [s]
  {
    if s != [] {
      SplitNoSeparator(s[1..], sep);
      assert [s[0]] + s[1..] == s;
    }
  }

  lemma {:induction false} SplitAfterPiece(p: string, t: string, sep: char)
    requires sep !in p
    ensures Split(p + [sep] + t, sep) == [p] + Split(t, sep)
  {
    if p == [] {
      assert ([] + [sep] + t)[1..] == t;
    } else {
      assert (p + [sep] + t)[1..] == p[1..] + [sep] + t;
      SplitAfterPiece(p[1..], t, sep);
      assert [p[0]] + p[1..] == p;
    }
  }

  /** A character that is not the separator and is in no piece is not in the join. */
  lemma {:induction false} JoinAbsent(pieces: seq<string>, sep: char, d: char)
    requires |pieces| >= 1 && d != sep
    requires forall i :: 0 <= i < |pieces| ==> d !in pieces[i]
    ensures d !in Join(pieces, sep)
  {
    if |pieces| > 1 {
      JoinAbsent(pieces[1..], sep, d);
    }
  }

  /** A join has one separator fewer than it has pieces, when the pieces
      themselves hold none. */
  lemma JoinCount(pieces: seq<string>, sep: char)
    requires |pieces| >= 1
    requires forall i :: 0 <= i < |pieces| ==> sep !in pieces[i]
    ensures Count(Join(pieces, sep), sep) == |pieces| - 1
  {
    SplitJoin(pieces, sep);
  }

  /** Decimal digits of `n`, as `String(n)` or a template literal prints it. */
  function NatToString(n: nat): (r: string)
    ensures |r| >= 1
    ensures forall i :: 0 <= i < |r| ==> '0' <= r[i] <= '9'
    decreases n
  {
    var d := [(n % 10 + '0' as int) as char];
    if n < 10 then d else NatToString(n / 10) + d
  }

  /** The number a string of decimal digits denotes, as `Number` reads it. */
  function DigitsValue(s: string): nat
  {
    if s == [] then 0
    else
      var d := s[|s| - 1] as int - '0' as int;
      DigitsValue(s[..|s| - 1]) * 10 + (if 0 <= d then d else 0)
  }

  /** Printing a number and reading its digits back gives the number. */
  lemma {:induction false} DigitsValueNatToString(n: nat)
    ensures DigitsValue(NatToString(n)) == n
    decreases n
  {
    var r := NatToString(n);
    var d := [(n % 10 + '0' as int) as char];
    if n >= 10 {
      DigitsValueNatToString(n / 10);
      assert r == NatToString(n / 10) + d;
      assert r[..|r| - 1] == NatToString(n / 10);
    }
  }
}
