/** Small optional-value wrapper shared by the other modules. */
module Wrappers {
  datatype Option<+T> = None | Some(value: T)
}

/**
 * The Python string built-ins the program relies on: strip/lstrip/rstrip,
 * `in` on strings, lower(), split(sep), splitlines(), sep.join(parts) and
 * replace(old, new), each restricted to ASCII whitespace and a single
 * line-break character.
 */
module Text {

  /** Whitespace as str.strip() and the regex class `\s` see it (ASCII subset). */
  predicate IsSpace(c: char) {
    c == ' ' || c == '\t' || c == '\n' || c == '\r' || c == '\U{B}' || c == '\U{C}'
  }

  predicate AllSpace(s: string) {
    forall i :: 0 <= i < |s| ==> IsSpace(s[i])
  }

  /** Neither the first nor the last character is whitespace. */
  predicate Trimmed(s: string) {
    s == [] || (!IsSpace(s[0]) && !IsSpace(s[|s| - 1]))
  }

  /** str.lstrip(): drops the maximal whitespace prefix. */
  function LStrip(s: string): (r: string)
    ensures |r| <= |s| && r == s[|s| - |r|..]
    ensures r == [] || !IsSpace(r[0])
  {
    if s != [] && IsSpace(s[0]) then LStrip(s[1..]) else s
  }

  /** What str.lstrip() cuts off is whitespace. */
  lemma {:induction false} LStripCut(s: string)
    ensures AllSpace(s[..|s| - |LStrip(s)|])
  {
    if s != [] && IsSpace(s[0]) {
      LStripCut(s[1..]);
      var n := |s| - |LStrip(s)|;
      assert s[..n] == [s[0]] + s[1..][..n - 1];
    }
  }

  /** str.rstrip(): drops the maximal whitespace suffix, and only whitespace. */
  function RStrip(s: string): (r: string)
    ensures |r| <= |s| && r == s[..|r|]
    ensures AllSpace(s[|r|..])
    ensures r == [] || !IsSpace(r[|r| - 1])
  {
    if s != [] && IsSpace(s[|s| - 1]) then
      var t := RStrip(s[..|s| - 1]);
      assert s[|t|..] == s[..|s| - 1][|t|..] + [s[|s| - 1]];
      t
    else s
  }

  /** str.strip(): trims whitespace from both ends. */
  function Strip(s: string): (r: string)
    ensures Trimmed(r)
    ensures |r| <= |s|
  {
    LStrip(RStrip(s))
  }

  /** The stripped text is a factor of `s` with only whitespace around it. */
  lemma StripFactor(s: string)
    ensures var r := Strip(s);
      exists k :: 0 <= k <= |s| - |r| && r == s[k..k + |r|] && AllSpace(s[..k]) && AllSpace(s[k + |r|..])
  {
    var t := RStrip(s);
    var r := LStrip(t);
    var k := |t| - |r|;
    LStripCut(t);
    assert t[k..] == s[k..|t|];
    assert t[..k] == s[..k];
    assert AllSpace(s[..k]) && AllSpace(s[|t|..]);
  }

  /** Stripping a string that is already trimmed changes nothing. */
  lemma StripTrimmed(s: string)
    requires Trimmed(s)
    ensures Strip(s) == s
  {
    assert RStrip(s) == s;
  }

  /** `[x.strip() for x in xs]`. */
  function StripEach(xs: seq<string>): seq<string> {
    seq(|xs|, i requires 0 <= i < |xs| => Strip(xs[i]))
  }

  /** Python's `sub in s`. */
  predicate Contains(s: string, sub: string) {
    exists i :: 0 <= i <= |s| && sub <= s[i..]
  }

  /** An occurrence in a prefix is an occurrence in the whole string. */
  lemma ContainsPrefix(s: string, n: nat, sub: string)
    requires n <= |s|
    ensures Contains(s[..n], sub) ==> Contains(s, sub)
  {
    if Contains(s[..n], sub) {
      var i :| 0 <= i <= n && sub <= s[..n][i..];
      assert s[..n][i..] <= s[i..];
    }
  }

  /** An occurrence in a suffix is an occurrence in the whole string. */
  lemma ContainsSuffix(s: string, n: nat, sub: string)
    requires n <= |s|
    ensures Contains(s[n..], sub) ==> Contains(s, sub)
  {
    if Contains(s[n..], sub) {
      var i :| 0 <= i <= |s| - n && sub <= s[n..][i..];
      assert s[n..][i..] == s[n + i..];
    }
  }

  /** Stripping creates no occurrence: one in the stripped text is one in the text. */
  lemma StripContains(s: string, sub: string)
    ensures Contains(Strip(s), sub) ==> Contains(s, sub)
  {
    var t := RStrip(s);
    var r := LStrip(t);
    ContainsSuffix(t, |t| - |r|, sub);
    ContainsPrefix(s, |t|, sub);
  }

  /** ASCII str.lower() on one character. */
  function LowerChar(c: char): char {
    if 'A' <= c <= 'Z' then (c as int + 32) as char else c
  }

  /** ASCII str.lower(). */
  function Lower(s: string): string {
    seq(|s|, i requires 0 <= i < |s| => LowerChar(s[i]))
  }

  /** `sep.join(parts)`. */
  function Join(sep: string, parts: seq<string>): string {
    if parts == [] then []
    else if |parts| == 1 then parts[0]
    else parts[0] + sep + Join(sep, parts[1..])
  }

  /**
   * `s.split(sep)` for a one-character separator: the pieces between
   * separators, none of which holds the separator.
   */
  function Split(s: string, sep: char): (parts: seq<string>)
    ensures parts != []
    ensures forall p :: p in parts ==> sep !in p
  {
    if s == [] then [[]]
    else
      var rest := Split(s[1..], sep);
      if s[0] == sep then [[]] + rest
      else
        var parts := [[s[0]] + rest[0]] + rest[1..];
        assert forall p :: p in parts ==> p == parts[0] || p in rest;
        parts
  }

  /** Joining the pieces back with the separator gives the text. */
  lemma {:induction false} SplitJoinBack(s: string, sep: char)
    ensures Join([sep], Split(s, sep)) == s
  {
    if s != [] {
      var rest := Split(s[1..], sep);
      SplitJoinBack(s[1..], sep);
      assert s == [s[0]] + s[1..];
      if s[0] == sep {
        assert ([[]] + rest)[1..] == rest;
      } else if |rest| > 1 {
        var parts := [[s[0]] + rest[0]] + rest[1..];
        assert parts[1..] == rest[1..];
        assert rest == [rest[0]] + rest[1..];
      }
    }
  }

  /** There is one more piece than `s` has separators. */
  lemma {:induction false} SplitCount(s: string, sep: char)
    ensures |Split(s, sep)| == multiset(s)[sep] + 1
  {
    if s != [] {
      SplitCount(s[1..], sep);
      assert s == [s[0]] + s[1..];
      assert multiset(s) == multiset([s[0]]) + multiset(s[1..]);
    }
  }

  /** Splitting a separator-free string gives the string alone. */
  lemma {:induction false} SplitNoSep(a: string, sep: char)
    requires sep !in a
    ensures Split(a, sep) == [a]
  {
    if a != [] {
      SplitNoSep(a[1..], sep);
      assert [a[0]] + a[1..] == a;
    }
  }

  /** A separator-free prefix followed by a separator splits off as the first piece. */
  lemma {:induction false} SplitAfterPiece(a: string, sep: char, t: string)
    requires sep !in a
    ensures Split(a + [sep] + t, sep) == [a] + Split(t, sep)
  {
    if a == [] {
      assert a + [sep] + t == [sep] + t;
      assert ([sep] + t)[1..] == t;
    } else {
      var s := a + [sep] + t;
      assert s[1..] == a[1..] + [sep] + t;
      SplitAfterPiece(a[1..], sep, t);
      assert [a[0]] + a[1..] == a;
    }
  }

  /** Joining separator-free pieces and splitting again gives the pieces back. */
  lemma {:induction false} SplitJoin(parts: seq<string>, sep: char)
    requires parts != []
    requires forall p :: p in parts ==> sep !in p
    ensures Split(Join([sep], parts), sep) == parts
  {
    if |parts| == 1 {
      SplitNoSep(parts[0], sep);
    } else {
      assert parts[0] in parts;
      assert forall p :: p in parts[1..] ==> p in parts;
      SplitJoin(parts[1..], sep);
      SplitAfterPiece(parts[0], sep, Join([sep], parts[1..]));
      assert [parts[0]] + parts[1..] == parts;
    }
  }

  /** Joining two non-empty lists puts one separator between their joins. */
  lemma {:induction false} JoinAppend(sep: string, xs: seq<string>, ys: seq<string>)
    requires xs != [] && ys != []
    ensures Join(sep, xs + ys) == Join(sep, xs) + sep + Join(sep, ys)
  {
    if |xs| == 1 {
      assert (xs + ys)[1..] == ys;
    } else {
      assert (xs + ys)[1..] == xs[1..] + ys;
      JoinAppend(sep, xs[1..], ys);
    }
  }

  /**
   * `s.splitlines()` with '\n' as the only line break: no line holds a
   * break, an empty text has no lines, and a final break does not open an
   * empty last line.
   */
  function Lines(s: string): (r: seq<string>)
    ensures forall l :: l in r ==> '\n' !in l
    ensures s == [] <==> r == []
  {
    if s == [] then []
    else if s[|s| - 1] == '\n' then Split(s[..|s| - 1], '\n')
    else Split(s, '\n')
  }

  /** Joining the lines with "\n" restores the text up to one final break. */
  lemma LinesJoin(s: string)
    ensures s != [] && s[|s| - 1] != '\n' ==> Join("\n", Lines(s)) == s
    ensures s != [] && s[|s| - 1] == '\n' ==> Join("\n", Lines(s)) + "\n" == s
  {
    if s != [] {
      if s[|s| - 1] == '\n' {
        SplitJoinBack(s[..|s| - 1], '\n');
        assert s[..|s| - 1] + "\n" == s;
      } else {
        SplitJoinBack(s, '\n');
      }
    }
  }

  /**
   * `s.replace(pat, repl)` for a non-empty pattern: occurrences are replaced
   * left to right without overlapping.
   */
  function Replace(s: string, pat: string, repl: string): string
    requires pat != []
  {
    if s == [] then []
    else if pat <= s then repl + Replace(s[|pat|..], pat, repl)
    else [s[0]] + Replace(s[1..], pat, repl)
  }

  /** Where the pattern does not start the string, it occurs in it exactly when it occurs in the tail. */
  lemma ContainsTail(s: string, pat: string)
    requires s != [] && !(pat <= s)
    ensures Contains(s, pat) <==> Contains(s[1..], pat)
  {
    ContainsSuffix(s, 1, pat);
    if Contains(s, pat) {
      var i :| 0 <= i <= |s| && pat <= s[i..];
      assert i != 0 by { assert s[0..] == s; }
      assert s[1..][i - 1..] == s[i..];
    }
  }

  /** Text without the pattern is left unchanged. */
  lemma {:induction false} ReplaceAbsent(s: string, pat: string, repl: string)
    requires pat != []
    ensures !Contains(s, pat) ==> Replace(s, pat, repl) == s
  {
    if s != [] {
      if pat <= s {
        assert pat <= s[0..];
      } else {
        ContainsTail(s, pat);
        ReplaceAbsent(s[1..], pat, repl);
        assert [s[0]] + s[1..] == s;
      }
    }
  }

  /** Deleting a pattern never lengthens the text, and shortens it exactly when the pattern occurs. */
  lemma {:induction false} ReplaceDeletes(s: string, pat: string)
    requires pat != []
    ensures |Replace(s, pat, "")| <= |s|
    ensures |Replace(s, pat, "")| < |s| <==> Contains(s, pat)
  {
    if s != [] {
      if pat <= s {
        assert pat <= s[0..];
        ReplaceDeletes(s[|pat|..], pat);
      } else {
        ContainsTail(s, pat);
        ReplaceDeletes(s[1..], pat);
      }
    }
  }
}
