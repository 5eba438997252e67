/** The Python string operations the scripts rely on, restricted to what they
    use: `str.isspace`, `str.lower`/`str.title` on ASCII letters, `strip`,
    `split` (with and without a separator), `join`, substring search and
    slicing. The centre piece is `" ".join(s.split())`, the whitespace
    collapsing applied to every scraped text, with its two properties:
    the result has no line break, no leading, trailing or doubled whitespace
    (`CollapseIsCollapsed`), and collapsing is idempotent (`CollapseIdempotent`). */
module Strings {
  import opened Util

  /** Python's `str.isspace()` for one character: the separators of `str.split()`
      and what `str.strip()` removes (and what the regex class `\s` matches). */
  predicate IsSpace(c: char) {
    var n := c as int;
    || n == 0x20 || 0x09 <= n <= 0x0D || 0x1C <= n <= 0x1F
    || n == 0x85 || n == 0xA0 || n == 0x1680 || 0x2000 <= n <= 0x200A
    || n == 0x2028 || n == 0x2029 || n == 0x202F || n == 0x205F || n == 0x3000
  }

  /** The regex class `[\r\n]`. */
  predicate IsLineBreak(c: char) {
    c == '\r' || c == '\n'
  }

  predicate IsAsciiUpper(c: char) { 'A' <= c <= 'Z' }
  predicate IsAsciiLower(c: char) { 'a' <= c <= 'z' }
  predicate IsAsciiLetter(c: char) { IsAsciiUpper(c) || IsAsciiLower(c) }
  predicate IsDigit(c: char) { '0' <= c <= '9' }

  function LowerChar(c: char): (r: char)
    ensures IsSpace(r) <==> IsSpace(c)
    ensures !IsAsciiUpper(r)
  {
    if IsAsciiUpper(c) then (c as int + 32) as char else c
  }

  function UpperChar(c: char): char {
    if IsAsciiLower(c) then (c as int - 32) as char else c
  }

  /** `str.lower()` on ASCII text. */
  function Lower(s: string): (r: string)
    ensures |r| == |s|
    ensures forall i :: 0 <= i < |s| ==> r[i] == LowerChar(s[i])
  {
    seq(|s|, i requires 0 <= i < |s| => LowerChar(s[i]))
  }

  lemma LowerIdempotent(s: string)
    ensures Lower(Lower(s)) == Lower(s)
  {
  }

  /** `s.startswith(t)`. */
  predicate StartsWith(s: string, t: string) {
    |t| <= |s| && s[..|t|] == t
  }

  /** A text starts with its first piece. */
  lemma StartsWithPrefix(p: string, a: string, b: string)
    ensures StartsWith(p + a + b, p)
  {
    assert (p + a + b)[..|p|] == p;
  }

  /** `t` occurs in `s` at index `j`. */
  predicate OccursAt(s: string, t: string, j: nat) {
    j + |t| <= |s| && s[j..j + |t|] == t
  }

  /** `s.find(t, k)`: the first occurrence of `t` in `s` at or after `k`. */
  function IndexFrom(s: string, t: string, k: nat): (r: Option<nat>)
    requires k <= |s|
    ensures r.Some? ==> k <= r.value && OccursAt(s, t, r.value)
    ensures r.Some? ==> forall j :: k <= j < r.value ==> !OccursAt(s, t, j)
    ensures r.None? ==> forall j :: k <= j <= |s| ==> !OccursAt(s, t, j)
    decreases |s| - k
  {
    if OccursAt(s, t, k) then Some(k)
    else if k == |s| then None
    else IndexFrom(s, t, k + 1)
  }

  function IndexOf(s: string, t: string): Option<nat> {
    IndexFrom(s, t, 0)
  }

  /** `t in s`. */
  predicate Contains(s: string, t: string) {
    IndexOf(s, t).Some?
  }

  /** Every character is whitespace. */
  predicate AllSpace(s: string) {
    forall i :: 0 <= i < |s| ==> IsSpace(s[i])
  }

  function TrimStart(s: string): (r: string)
    ensures r == [] || !IsSpace(r[0])
    ensures |r| <= |s| && r == s[|s| - |r|..]
    ensures AllSpace(s[..|s| - |r|])
    ensures s != [] && !IsSpace(s[0]) ==> r == s
  {
    if s != [] && IsSpace(s[0]) then
      var r := TrimStart(s[1..]);
      TrimStartStep(s, r);
      r
    else s
  }

  /** A whitespace character before a whitespace prefix extends it. */
  lemma TrimStartStep(s: string, r: string)
    requires s != [] && IsSpace(s[0])
    requires |r| <= |s| - 1 && r == s[1..][|s| - 1 - |r|..]
    requires AllSpace(s[1..][..|s| - 1 - |r|])
    ensures r == s[|s| - |r|..] && AllSpace(s[..|s| - |r|])
  {
    assert s[..|s| - |r|] == [s[0]] + s[1..][..|s| - 1 - |r|];
  }

  function TrimEnd(s: string): (r: string)
    ensures r == [] || !IsSpace(r[|r| - 1])
    ensures |r| <= |s| && r == s[..|r|]
    ensures AllSpace(s[|r|..])
    ensures s != [] && !IsSpace(s[|s| - 1]) ==> r == s
  {
    if s != [] && IsSpace(s[|s| - 1]) then
      var r := TrimEnd(s[..|s| - 1]);
      TrimEndStep(s, r);
      r
    else s
  }

  /** A whitespace character after a whitespace suffix extends it. */
  lemma TrimEndStep(s: string, r: string)
    requires s != [] && IsSpace(s[|s| - 1])
    requires |r| <= |s| - 1 && r == s[..|s| - 1][..|r|]
    requires AllSpace(s[..|s| - 1][|r|..])
    ensures r == s[..|r|] && AllSpace(s[|r|..])
  {
    assert s[|r|..] == s[..|s| - 1][|r|..] + [s[|s| - 1]];
  }

  /** Trimming the end of a text whose last part starts with a non-whitespace
      character only trims that part. */
  lemma {:induction false} TrimEndAfter(a: string, b: string)
    requires b != [] && !IsSpace(b[0])
    ensures TrimEnd(a + b) == a + TrimEnd(b)
    decreases |b|
  {
    if IsSpace(b[|b| - 1]) {
      var b' := b[..|b| - 1];
      assert (a + b)[..|a + b| - 1] == a + b';
      TrimEndAfter(a, b');
    }
  }

  /** Lines whose first line starts and whose last line starts with a
      non-whitespace character: stripping their newline-joined text only
      trims the end of the last line, and when no line holds a newline,
      splitting the stripped text at newlines gives the lines back. */
  lemma StripJoinedLines(ws: seq<string>, last: string)
    requires ws != [] && ws[0] != [] && !IsSpace(ws[0][0])
    requires last != [] && !IsSpace(last[0])
    ensures Strip(Join(ws + [last], "\n")) == Join(ws + [TrimEnd(last)], "\n")
    ensures (forall i :: 0 <= i < |ws| ==> '\n' !in ws[i]) && '\n' !in last ==>
      SplitWhere(Strip(Join(ws + [last], "\n")), IsNewline) == ws + [TrimEnd(last)]
  {
    JoinSnoc(ws, last, "\n");
    var head := Join(ws, "\n") + "\n";
    var s := head + last;
    JoinStartsWith(ws, "\n");
    assert s[0] == ws[0][0];
    assert TrimStart(s) == s;
    TrimEndAfter(head, last);
    JoinSnoc(ws, TrimEnd(last), "\n");
    var ls := ws + [TrimEnd(last)];
    if (forall i :: 0 <= i < |ws| ==> '\n' !in ws[i]) && '\n' !in last {
      assert TrimEnd(last) == last[..|TrimEnd(last)|];
      assert '\n' !in TrimEnd(last);
      assert forall i :: 0 <= i < |ls| ==> '\n' !in ls[i];
      JoinSplitLines(ls);
    }
  }

  /** `s.strip()`: the input with the whitespace around it removed. The result
      has no whitespace at either end; `StripAround` shows that what was
      removed is whitespace, which together determine it. */
  function Strip(s: string): (r: string)
    ensures r == [] || (!IsSpace(r[0]) && !IsSpace(r[|r| - 1]))
    ensures |r| <= |s|
    ensures s == [] || (!IsSpace(s[0]) && !IsSpace(s[|s| - 1])) ==> r == s
  {
    var t := TrimStart(s);
    assert t != [] ==> t[|t| - 1] == s[|s| - 1];
    TrimEnd(t)
  }

  /** The input is a whitespace prefix, then the stripped text, then a
      whitespace suffix. */
  lemma StripAround(s: string)
    ensures exists a, b :: AllSpace(a) && AllSpace(b) && s == a + Strip(s) + b
  {
    var t := TrimStart(s);
    var r := TrimEnd(t);
    assert r == Strip(s);
    var a, b := s[..|s| - |t|], t[|r|..];
    assert AllSpace(a) && AllSpace(b);
    SliceAround(s, t, r);
    assert s == a + r + b;
  }

  /** A suffix `t` of `s` and a prefix `r` of `t` cut `s` into three. */
  lemma SliceAround(s: string, t: string, r: string)
    requires |t| <= |s| && t == s[|s| - |t|..]
    requires |r| <= |t| && r == t[..|r|]
    ensures s == s[..|s| - |t|] + r + t[|r|..]
  {
    assert s == s[..|s| - |t|] + t;
    assert t == r + t[|r|..];
  }

  lemma StripIdempotent(s: string)
    ensures Strip(Strip(s)) == Strip(s)
  {
  }

  /** Splitting at every character satisfying `sep`: `s.split(",")` for a single
      separator; the parts between runs of separators are the non-empty parts. */
  function SplitWhere(s: string, sep: char -> bool): (parts: seq<string>)
    ensures |parts| >= 1
    ensures forall p <- parts, c <- p :: !sep(c)
    ensures |parts[0]| <= |s| && parts[0] == s[..|parts[0]|]
    ensures |parts[0]| < |s| ==> sep(s[|parts[0]|])
  {
    if s == [] then [[]]
    else
      var rest := SplitWhere(s[1..], sep);
      if sep(s[0]) then [[]] + rest
      else
        assert s[1..][..|rest[0]|] == s[1..|rest[0]| + 1];
        [[s[0]] + rest[0]] + rest[1..]
  }

  /** A string without separators is a single part. */
  lemma {:induction false} SplitWhereNone(s: string, sep: char -> bool)
    requires forall c <- s :: !sep(c)
    ensures SplitWhere(s, sep) == [s]
  {
    if s != [] {
      SplitWhereNone(s[1..], sep);
      assert [s[0]] + s[1..] == s;
    }
  }

  /** `sep.join(ws)`. */
  function Join(ws: seq<string>, sep: string): string {
    if ws == [] then ""
    else if |ws| == 1 then ws[0]
    else ws[0] + sep + Join(ws[1..], sep)
  }

  /** Joining two neighbouring parts with the separator first leaves the
      joined text as it was. */
  lemma {:induction false} JoinMerge(a: seq<string>, u: string, v: string, b: seq<string>, sep: string)
    ensures Join(a + [u, v] + b, sep) == Join(a + [u + sep + v] + b, sep)
  {
    if a == [] {
      var w := u + sep + v;
      assert a + [u, v] + b == [u, v] + b && a + [w] + b == [w] + b;
      if b == [] {
        assert [u, v][1..] == [v];
        assert Join([u, v], sep) == w;
      } else {
        assert ([u, v] + b)[1..] == [v] + b;
        assert ([v] + b)[1..] == b;
        assert ([w] + b)[1..] == b;
        assert Join([u, v] + b, sep) == u + sep + (v + sep + Join(b, sep));
        assert Join([w] + b, sep) == w + sep + Join(b, sep);
      }
    } else {
      JoinMerge(a[1..], u, v, b, sep);
      assert (a + [u, v] + b)[1..] == a[1..] + [u, v] + b;
      assert (a + [u + sep + v] + b)[1..] == a[1..] + [u + sep + v] + b;
    }
  }

  lemma JoinCons(ws: seq<string>, sep: string)
    requires |ws| >= 2
    ensures Join(ws, sep) == ws[0] + sep + Join(ws[1..], sep)
  {
  }

  /** A joined text starts with its first part. */
  lemma JoinStartsWith(ws: seq<string>, sep: string)
    requires ws != []
    ensures StartsWith(Join(ws, sep), ws[0])
  {
  }

  /** A joined text of two or more parts starts with the first part, the
      separator and the start of the second part. */
  lemma JoinStartsWithTwo(ws: seq<string>, sep: string, p: string)
    requires |ws| >= 2 && StartsWith(ws[1], p)
    ensures StartsWith(Join(ws, sep), ws[0] + sep + p)
  {
    var rest := Join(ws[1..], sep);
    JoinStartsWith(ws[1..], sep);
    assert rest[..|p|] == ws[1][..|p|];
    assert (ws[0] + sep + rest)[..|ws[0] + sep + p|] == ws[0] + sep + rest[..|p|];
  }

  /** Joining one more part appends the separator and the part. */
  lemma {:induction false} JoinSnoc(ws: seq<string>, w: string, sep: string)
    requires ws != []
    ensures Join(ws + [w], sep) == Join(ws, sep) + sep + w
  {
    if |ws| == 1 {
      assert ws + [w] == [ws[0], w];
      assert [ws[0], w][1..] == [w];
    } else {
      JoinSnoc(ws[1..], w, sep);
      assert (ws + [w])[1..] == ws[1..] + [w];
    }
  }

  /** The newline character, the separator of message lines. */
  predicate IsNewline(c: char) {
    c == '\n'
  }

  /** Splitting at a single separator character and joining the parts with
      it gives the text back; no part contains the separator. */
  lemma {:induction false} SplitWhereJoin(s: string, sep: char -> bool, x: char)
    requires forall c :: sep(c) <==> c == x
    ensures Join(SplitWhere(s, sep), [x]) == s
    ensures forall p <- SplitWhere(s, sep) :: x !in p
  {
    if s != [] {
      var rest := SplitWhere(s[1..], sep);
      SplitWhereJoin(s[1..], sep, x);
      if sep(s[0]) {
        assert SplitWhere(s, sep) == [[]] + rest;
        assert ([[]] + rest)[1..] == rest;
        assert s == [x] + s[1..];
      } else {
        var parts := [[s[0]] + rest[0]] + rest[1..];
        assert SplitWhere(s, sep) == parts;
        assert parts[1..] == rest[1..];
        if |rest| > 1 {
          assert Join(rest, [x]) == rest[0] + [x] + Join(rest[1..], [x]);
        }
        assert s == [s[0]] + s[1..];
      }
    }
  }

  /** A part without separators followed by a separator splits off as the
      first part. */
  lemma {:induction false} SplitWhereCons(a: string, x: char, t: string, sep: char -> bool)
    requires sep(x) && forall c <- a :: !sep(c)
    ensures SplitWhere(a + [x] + t, sep) == [a] + SplitWhere(t, sep)
  {
    var s := a + [x] + t;
    if a == [] {
      assert s[1..] == t;
    } else {
      assert s[1..] == a[1..] + [x] + t;
      SplitWhereCons(a[1..], x, t, sep);
      assert [a[0]] + a[1..] == a;
    }
  }

  /** No character of `s` is a separator. */
  predicate SepFree(s: string, sep: char -> bool) {
    forall c <- s :: !sep(c)
  }

  /** Joining parts without separators by a separator character and
      splitting at every separator gives the parts back. */
  lemma {:induction false} JoinSplitWhere(ws: seq<string>, sep: char -> bool, x: char)
    requires ws != [] && sep(x)
    requires forall i :: 0 <= i < |ws| ==> SepFree(ws[i], sep)
    ensures SplitWhere(Join(ws, [x]), sep) == ws
  {
    assert SepFree(ws[0], sep);
    if |ws| == 1 {
      SplitWhereNone(ws[0], sep);
    } else {
      var rest := ws[1..];
      assert forall i :: 0 <= i < |rest| ==> SepFree(rest[i], sep) by {
        assert forall i :: 0 <= i < |rest| ==> rest[i] == ws[i + 1];
      }
      calc {
        SplitWhere(Join(ws, [x]), sep);
        == { JoinCons(ws, [x]); }
        SplitWhere(ws[0] + [x] + Join(rest, [x]), sep);
        == { SplitWhereCons(ws[0], x, Join(rest, [x]), sep); }
        [ws[0]] + SplitWhere(Join(rest, [x]), sep);
        == { JoinSplitWhere(rest, sep, x); }
        [ws[0]] + rest;
      }
      assert [ws[0]] + rest == ws;
    }
  }

  /** Lines without a newline, joined by newlines, split back into
      themselves. */
  lemma JoinSplitLines(ws: seq<string>)
    requires ws != []
    requires forall i :: 0 <= i < |ws| ==> '\n' !in ws[i]
    ensures SplitWhere(Join(ws, "\n"), IsNewline) == ws
  {
    assert forall i :: 0 <= i < |ws| ==> SepFree(ws[i], IsNewline);
    JoinSplitWhere(ws, IsNewline, '\n');
  }

  /** A non-empty run of non-whitespace characters: what `str.split()` yields. */
  predicate IsToken(w: string) {
    w != [] && forall i :: 0 <= i < |w| ==> !IsSpace(w[i])
  }

  /** The length of the leading run of non-whitespace characters. */
  function WordLen(s: string): (n: nat)
    ensures n <= |s|
    ensures forall i :: 0 <= i < n ==> !IsSpace(s[i])
    ensures n < |s| ==> IsSpace(s[n])
  {
    if s == [] || IsSpace(s[0]) then 0 else 1 + WordLen(s[1..])
  }

  /** `s.split()`: the maximal runs of non-whitespace characters, in order. */
  function Words(s: string): (ws: seq<string>)
    ensures forall w <- ws :: IsToken(w)
    decreases |s|
  {
    if s == [] then []
    else if IsSpace(s[0]) then Words(s[1..])
    else
      var n := WordLen(s);
      [s[..n]] + Words(s[n..])
  }

  /** `" ".join(s.split())`. */
  function Collapse(s: string): string {
    Join(Words(s), " ")
  }

  /** Every whitespace character is a plain space, sits strictly inside the text
      and is followed by a non-whitespace character: no line breaks, no leading
      or trailing whitespace, no two whitespace characters in a row. */
  predicate IsCollapsed(r: string) {
    forall i :: 0 <= i < |r| && IsSpace(r[i]) ==>
      r[i] == ' ' && 0 < i < |r| - 1 && !IsSpace(r[i + 1])
  }

  lemma {:induction false} JoinTokensCollapsed(ws: seq<string>)
    requires forall w <- ws :: IsToken(w)
    ensures IsCollapsed(Join(ws, " "))
    ensures ws != [] ==> |Join(ws, " ")| >= |ws[0]| > 0
  {
    if |ws| >= 2 {
      var w, j := ws[0], Join(ws[1..], " ");
      JoinTokensCollapsed(ws[1..]);
      assert ws[0] in ws && ws[1] in ws;
      assert IsToken(w);
      var r := w + " " + j;
      assert r == Join(ws, " ");
      assert !IsSpace(j[0]);
      forall i | 0 <= i < |r| && IsSpace(r[i])
        ensures r[i] == ' ' && 0 < i < |r| - 1 && !IsSpace(r[i + 1])
      {
        if i == |w| {
          assert r[i + 1] == j[0];
        } else if i > |w| {
          assert r[i] == j[i - |w| - 1];
          assert r[i + 1] == j[i - |w|];
        }
      }
    } else if |ws| == 1 {
      assert ws[0] in ws;
    }
  }

  lemma {:induction false} WordLenOfToken(w: string, t: string)
    requires forall i :: 0 <= i < |w| ==> !IsSpace(w[i])
    requires t == [] || IsSpace(t[0])
    ensures WordLen(w + t) == |w|
  {
    if w != [] {
      assert (w + t)[1..] == w[1..] + t;
      WordLenOfToken(w[1..], t);
    } else {
      assert w + t == t;
    }
  }

  /** Splitting a space-joined list of tokens gives the tokens back. */
  lemma {:induction false} WordsOfJoin(ws: seq<string>)
    requires forall w <- ws :: IsToken(w)
    ensures Words(Join(ws, " ")) == ws
  {
    if ws == [] {
    } else if |ws| == 1 {
      var w := ws[0];
      assert w in ws;
      WordLenOfToken(w, []);
      assert w + [] == w;
      assert w[|w|..] == [];
    } else {
      var w, j := ws[0], Join(ws[1..], " ");
      assert w in ws;
      assert forall v <- ws[1..] :: v in ws;
      JoinCons(ws, " ");
      WordsOfJoin(ws[1..]);
      WordsOfTokenSpace(w, j);
      assert [w] + ws[1..] == ws;
    }
  }

  /** A word followed by a space and more text is the first word. */
  lemma {:induction false} WordsOfTokenSpace(w: string, j: string)
    requires IsToken(w)
    ensures Words(w + " " + j) == [w] + Words(j)
  {
    var r := w + " " + j;
    assert r == w + (" " + j);
    WordLenOfToken(w, " " + j);
    assert r[..|w|] == w;
    assert r[|w|..] == " " + j;
    assert (" " + j)[1..] == j;
  }

  lemma {:induction false} WordLenAppend(a: string, b: string)
    requires b == [] || IsSpace(b[0])
    ensures WordLen(a + b) == WordLen(a)
  {
    if a == [] {
      assert a + b == b;
    } else {
      assert (a + b)[0] == a[0];
      if !IsSpace(a[0]) {
        assert (a + b)[1..] == a[1..] + b;
        WordLenAppend(a[1..], b);
      }
    }
  }

  /** A text that ends where whitespace (or nothing) begins splits into
      words independently of what follows. */
  lemma {:induction false} WordsAppend(a: string, b: string)
    requires b == [] || IsSpace(b[0])
    ensures Words(a + b) == Words(a) + Words(b)
    decreases |a|
  {
    if a == [] {
      assert a + b == b;
    } else if IsSpace(a[0]) {
      assert (a + b)[1..] == a[1..] + b;
      WordsAppend(a[1..], b);
      assert Words(a + b) == Words(a[1..] + b);
    } else {
      var n := WordLen(a);
      WordsAppend(a[n..], b);
      WordsAppendWord(a, b);
    }
  }

  /** The step of `WordsAppend` where `a` starts with a word. */
  lemma {:induction false} WordsAppendWord(a: string, b: string)
    requires b == [] || IsSpace(b[0])
    requires a != [] && !IsSpace(a[0])
    requires Words(a[WordLen(a)..] + b) == Words(a[WordLen(a)..]) + Words(b)
    ensures Words(a + b) == Words(a) + Words(b)
  {
    var n := WordLen(a);
    WordsAfterFirstWord(a, b);
    assert Words(a) == [a[..n]] + Words(a[n..]);
  }

  /** Appending text that starts with whitespace keeps the first word. */
  lemma {:induction false} WordsAfterFirstWord(a: string, b: string)
    requires b == [] || IsSpace(b[0])
    requires a != [] && !IsSpace(a[0])
    ensures Words(a + b) == [a[..WordLen(a)]] + Words(a[WordLen(a)..] + b)
  {
    var n := WordLen(a);
    WordLenAppend(a, b);
    assert (a + b)[..n] == a[..n];
    assert (a + b)[n..] == a[n..] + b;
  }

  lemma {:induction false} WordsAllSpace(s: string)
    requires AllSpace(s)
    ensures Words(s) == []
  {
    if s != [] {
      assert IsSpace(s[0]);
      WordsAllSpace(s[1..]);
    }
  }

  /** Leading whitespace does not change the words. */
  lemma {:induction false} WordsSpacePrefix(a: string, t: string)
    requires AllSpace(a)
    ensures Words(a + t) == Words(t)
  {
    if a != [] {
      assert IsSpace((a + t)[0]);
      assert (a + t)[1..] == a[1..] + t;
      WordsSpacePrefix(a[1..], t);
    } else {
      assert a + t == t;
    }
  }

  /** Stripping a text keeps all its words. */
  lemma WordsAround(a: string, r: string, b: string)
    requires AllSpace(a) && AllSpace(b)
    ensures Words(a + r + b) == Words(r)
  {
    WordsAllSpace(b);
    WordsAppend(r, b);
    assert Words(r + b) == Words(r);
    WordsSpacePrefix(a, r + b);
    assert a + r + b == a + (r + b);
  }

  lemma WordsOfStrip(s: string)
    ensures Words(Strip(s)) == Words(s)
  {
    StripAround(s);
    var a, b :| AllSpace(a) && AllSpace(b) && s == a + Strip(s) + b;
    WordsAround(a, Strip(s), b);
  }

  /** Every character of the stripped text is a character of the text. */
  lemma {:induction false} StripKeepsChars(s: string)
    ensures forall c <- Strip(s) :: c in s
  {
    var r := Strip(s);
    StripAround(s);
    var a, b :| AllSpace(a) && AllSpace(b) && s == a + r + b;
    forall c <- r ensures c in s {
      assert c in a + r;
    }
  }

  /** The words of each text, one text after the other. */
  function WordsOf(ts: seq<string>): seq<string> {
    if ts == [] then [] else Words(ts[0]) + WordsOf(ts[1..])
  }

  /** Splitting at whitespace characters keeps all the words, in order. */
  lemma {:induction false} WordsOfSplit(s: string, sep: char -> bool)
    requires forall c :: sep(c) ==> IsSpace(c)
    ensures WordsOf(SplitWhere(s, sep)) == Words(s)
  {
    if s != [] {
      var rest := SplitWhere(s[1..], sep);
      WordsOfSplit(s[1..], sep);
      if sep(s[0]) {
        assert SplitWhere(s, sep) == [[]] + rest;
        assert ([[]] + rest)[1..] == rest;
      } else {
        WordsOfSplitWord(s, sep, rest);
      }
    }
  }

  /** The step of `WordsOfSplit` where the input starts inside a part. */
  lemma {:induction false} WordsOfSplitWord(s: string, sep: char -> bool, rest: seq<string>)
    requires forall c :: sep(c) ==> IsSpace(c)
    requires s != [] && !sep(s[0]) && rest == SplitWhere(s[1..], sep)
    requires WordsOf(rest) == Words(s[1..])
    ensures WordsOf(SplitWhere(s, sep)) == Words(s)
  {
    var u := s[1..][|rest[0]|..];
    assert s[1..] == rest[0] + u;
    assert u == [] || IsSpace(u[0]);
    assert rest == [rest[0]] + rest[1..];
    WordsOfConsWord(s[0], rest[0], u, rest[1..]);
    assert s == [s[0]] + rest[0] + u;
  }

  /** Words of parts whose first part is followed in the text by whitespace
      or nothing: a character put in front of the text joins the first part. */
  lemma {:induction false} WordsOfConsWord(c: char, p: string, u: string, ts: seq<string>)
    requires u == [] || IsSpace(u[0])
    requires WordsOf([p] + ts) == Words(p + u)
    ensures WordsOf([[c] + p] + ts) == Words([c] + p + u)
  {
    assert ([p] + ts)[1..] == ts && ([[c] + p] + ts)[1..] == ts;
    WordsAppend(p, u);
    var wp := Words(p);
    assert wp + WordsOf(ts) == wp + Words(u);
    assert WordsOf(ts) == (wp + WordsOf(ts))[|wp|..] == Words(u);
    WordsAppend([c] + p, u);
  }



  /** `" ".join(s.split())` leaves no line break and no leading, trailing or
      doubled whitespace. */
  lemma CollapseIsCollapsed(s: string)
    ensures IsCollapsed(Collapse(s))
    ensures forall c <- Collapse(s) :: !IsLineBreak(c)
  {
    JoinTokensCollapsed(Words(s));
    var r := Collapse(s);
    forall c <- r ensures !IsLineBreak(c) {
      var i :| 0 <= i < |r| && r[i] == c;
    }
  }

  /** Collapsing twice is collapsing once. */
  lemma CollapseIdempotent(s: string)
    ensures Collapse(Collapse(s)) == Collapse(s)
  {
    WordsOfJoin(Words(s));
  }

  /** Python's `str.title()` on ASCII: a letter is upper-cased when the
      character before it is not a letter, lower-cased otherwise. */
  function TitleChar(c: char, afterLetter: bool): char {
    if !IsAsciiLetter(c) then c else if afterLetter then LowerChar(c) else UpperChar(c)
  }

  function TitleFrom(s: string, afterLetter: bool): (r: string)
    ensures |r| == |s|
  {
    if s == [] then [] else [TitleChar(s[0], afterLetter)] + TitleFrom(s[1..], IsAsciiLetter(s[0]))
  }

  function TitleCase(s: string): (r: string)
    ensures |r| == |s|
  {
    TitleFrom(s, false)
  }

  /** The character before position `i` is a letter. */
  predicate AfterLetter(s: string, i: nat)
    requires i < |s|
  {
    i > 0 && IsAsciiLetter(s[i - 1])
  }

  lemma {:induction false} TitleFromAt(s: string, afterLetter: bool, i: nat)
    requires i < |s|
    ensures TitleFrom(s, afterLetter)[i] == TitleChar(s[i], if i == 0 then afterLetter else AfterLetter(s, i))
    decreases i
  {
    if i > 0 {
      TitleFromAt(s[1..], IsAsciiLetter(s[0]), i - 1);
    }
  }

  /** Each character of the title-cased text depends only on itself and its
      predecessor: non-letters are kept, a letter is lower-cased after a
      letter and upper-cased otherwise. */
  lemma TitleCaseAt(s: string)
    ensures forall i :: 0 <= i < |s| ==> TitleCase(s)[i] == TitleChar(s[i], AfterLetter(s, i))
  {
    forall i | 0 <= i < |s| ensures TitleCase(s)[i] == TitleChar(s[i], AfterLetter(s, i)) {
      TitleFromAt(s, false, i);
    }
  }

  /** `s.replace(a, b)` for single characters. */
  function ReplaceChar(s: string, a: char, b: char): (r: string)
    ensures |r| == |s|
  {
    seq(|s|, i requires 0 <= i < |s| => if s[i] == a then b else s[i])
  }

  function DigitChar(d: nat): char
    requires d < 10
  {
    ('0' as int + d) as char
  }

  /** The number a string of decimal digits denotes. */
  function DecimalValue(s: string): nat
    requires forall i :: 0 <= i < |s| ==> IsDigit(s[i])
  {
    if s == [] then 0
    else
      var d := s[|s| - 1];
      assert IsDigit(d);
      10 * DecimalValue(s[..|s| - 1]) + (d as int - '0' as int)
  }

  /** `str(n)` for a natural number: decimal digits without a leading zero
      that denote `n`. */
  function NatToString(n: nat): (r: string)
    ensures r != []
    ensures forall i :: 0 <= i < |r| ==> IsDigit(r[i])
    ensures DecimalValue(r) == n
    ensures r[0] == '0' ==> r == "0"
  {
    if n < 10 then [DigitChar(n)]
    else
      var p := NatToString(n / 10);
      var r := p + [DigitChar(n % 10)];
      assert r[..|r| - 1] == p;
      r
  }

  /** `s.split("/")[-1]`: the text after the last slash, or all of `s`. */
  function LastSegment(s: string): (r: string)
    ensures '/' !in r
    ensures |r| <= |s| && r == s[|s| - |r|..]
    ensures |r| < |s| ==> s[|s| - |r| - 1] == '/'
  {
    if s == [] || s[|s| - 1] == '/' then []
    else LastSegment(s[..|s| - 1]) + [s[|s| - 1]]
  }
}
