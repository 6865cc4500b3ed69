/** The JavaScript string operations the chat client relies on, over Dafny
    strings: `split` on one separator character, `startsWith`, `slice(k)`,
    `includes`, `trim` and `toLowerCase`, plus concatenation of a list of
    strings. */
module Text {

  /** `parts.join(sep)`: the parts with one separator between neighbours. */
  function Join(parts: seq<string>, sep: char): string
  {
    if |parts| == 0 then []
    else if |parts| == 1 then parts[0]
    else parts[0] + [sep] + Join(parts[1..], sep)
  }

  /** `s.split(sep)` for a one-character separator: the pieces between
      separators, including the empty ones at either end, so "" gives [""]
      and "a\n" gives ["a", ""]. */
  function Split(s: string, sep: char): (r: seq<string>)
    ensures |r| >= 1
  {
    if s == [] then [[]]
    else
      var rest := Split(s[1..], sep);
      if s[0] == sep then [[]] + rest
      else [[s[0]] + rest[0]] + rest[1..]
  }

  /** The pieces hold no separator, and joining them back with it gives the
      string that was split. */
  lemma {:induction false} SplitJoin(s: string, sep: char)
    ensures forall i :: 0 <= i < |Split(s, sep)| ==> sep !in Split(s, sep)[i]
    ensures Join(Split(s, sep), sep) == s
  {
    if s != [] {
      SplitJoin(s[1..], sep);
      var rest := Split(s[1..], sep);
      if s[0] == sep {
        assert s == [sep] + s[1..];
        assert ([[]] + rest)[1..] == rest;
      } else {
        assert s == [s[0]] + s[1..];
        assert |rest| > 1 ==> Join(rest, sep) == rest[0] + [sep] + Join(rest[1..], sep);
        assert ([[s[0]] + rest[0]] + rest[1..])[1..] == rest[1..];
      }
    }
  }

  lemma {:induction false} SplitWithoutSeparator(s: string, sep: char)
    requires sep !in s
    ensures Split(s, sep) == [s]
  {
    if s != [] {
      SplitWithoutSeparator(s[1..], sep);
      assert [s[0]] + s[1..] == s;
    }
  }

  lemma {:induction false} SplitAfterPiece(a: string, sep: char, t: string)
    requires sep !in a
    ensures Split(a + [sep] + t, sep) == [a] + Split(t, sep)
  {
    var s := a + [sep] + t;
    if a == [] {
      assert s[1..] == t;
    } else {
      assert s[1..] == a[1..] + [sep] + t;
      SplitAfterPiece(a[1..], sep, t);
      assert [a[0]] + a[1..] == a;
    }
  }

  /** Split is the only way to cut `s` into separator-free pieces that join
      back to `s`. */
  lemma {:induction false} SplitUnique(parts: seq<string>, sep: char)
    requires |parts| >= 1
    requires forall i :: 0 <= i < |parts| ==> sep !in parts[i]
    ensures Split(Join(parts, sep), sep) == parts
  {
    if |parts| == 1 {
      SplitWithoutSeparator(parts[0], sep);
    } else {
      SplitUnique(parts[1..], sep);
      SplitAfterPiece(parts[0], sep, Join(parts[1..], sep));
      assert [parts[0]] + parts[1..] == parts;
    }
  }

  /** `s.startsWith(p)`. */
  predicate StartsWith(s: string, p: string)
  {
    |p| <= |s| && s[..|p|] == p
  }

  /** `s.slice(k)` for a non-negative `k`: everything from position `k` on,
      or the empty string when `s` is shorter. */
  function Slice(s: string, k: nat): (r: string)
    ensures k <= |s| ==> s == s[..k] + r
    ensures k >= |s| ==> r == []
  {
    if k <= |s| then s[k..] else []
  }

  /** `s.includes(p)`, scanning `s` from the left. */
  predicate Contains(s: string, p: string)
  {
    StartsWith(s, p) || (s != [] && Contains(s[1..], p))
  }

  /** The scan finds `p` exactly when `p` occurs in `s` at some position. */
  lemma {:induction false} ContainsIffOccurs(s: string, p: string)
    ensures Contains(s, p) <==> exists i :: 0 <= i <= |s| - |p| && StartsWith(s[i..], p)
  {
    assert s[0..] == s;
    if s != [] {
      ContainsIffOccurs(s[1..], p);
      if Contains(s[1..], p) {
        var j :| 0 <= j <= |s| - 1 - |p| && StartsWith(s[1..][j..], p);
        assert s[1..][j..] == s[j + 1..];
      }
      if i :| 0 < i <= |s| - |p| && StartsWith(s[i..], p) {
        assert s[1..][i - 1..] == s[i..];
      }
    }
  }

  /** The strings of `parts` one after another (`+=` in a loop, or
      `Response.text()` over the chunks of a body). */
  function Concat(parts: seq<string>): string
  {
    if parts == [] then [] else parts[0] + Concat(parts[1..])
  }

  lemma {:induction false} ConcatAppend(a: seq<string>, b: seq<string>)
    ensures Concat(a + b) == Concat(a) + Concat(b)
  {
    if a == [] {
      assert a + b == b;
    } else {
      assert (a + b)[1..] == a[1..] + b;
      ConcatAppend(a[1..], b);
    }
  }

  /** The characters ECMAScript's `trim` removes: WhiteSpace (tab, vertical
      tab, form feed, space, no-break space, byte order mark and the other
      space separators of category Zs) and LineTerminator (line feed,
      carriage return, line and paragraph separators). */
  predicate IsWhiteSpace(c: char)
  {
    c == '\t' || c == '\U{000B}' || c == '\U{000C}' || c == ' ' || c == '\U{00A0}' ||
    c == '\U{FEFF}' || c == '\U{1680}' || ('\U{2000}' <= c <= '\U{200A}') ||
    c == '\U{202F}' || c == '\U{205F}' || c == '\U{3000}' ||
    c == '\n' || c == '\r' || c == '\U{2028}' || c == '\U{2029}'
  }

  predicate AllWhiteSpace(s: string)
  {
    forall i :: 0 <= i < |s| ==> IsWhiteSpace(s[i])
  }

  /** `s.trimStart()`: the suffix left after dropping the leading white
      space, which itself does not start with white space. */
  function TrimStart(s: string): (r: string)
    ensures |r| <= |s| && r == s[|s| - |r|..]
    ensures AllWhiteSpace(s[..|s| - |r|])
    ensures r == [] || !IsWhiteSpace(r[0])
  {
    if s != [] && IsWhiteSpace(s[0]) then
      var r := TrimStart(s[1..]);
      assert s[..|s| - |r|] == [s[0]] + s[1..][..|s| - 1 - |r|];
      r
    else s
  }

  /** `s.trimEnd()`: the prefix left after dropping the trailing white
      space, which itself does not end with white space. */
  function TrimEnd(s: string): (r: string)
    ensures |r| <= |s| && r == s[..|r|]
    ensures AllWhiteSpace(s[|r|..])
    ensures r == [] || !IsWhiteSpace(r[|r| - 1])
  {
    if s != [] && IsWhiteSpace(s[|s| - 1]) then
      var r := TrimEnd(s[..|s| - 1]);
      assert s[|r|..] == s[..|s| - 1][|r|..] + [s[|s| - 1]];
      r
    else s
  }

  /** `s.trim()`. */
  function Trim(s: string): string
  {
    TrimEnd(TrimStart(s))
  }

  /** A trimmed string that is not empty starts and ends with a character
      other than white space. */
  lemma TrimEdges(s: string)
    ensures Trim(s) != [] ==> !IsWhiteSpace(Trim(s)[0]) && !IsWhiteSpace(Trim(s)[|Trim(s)| - 1])
  {
    var u := TrimStart(s);
    var t := TrimEnd(u);
    if t != [] {
      assert t == u[..|t|];
      assert t[0] == u[0];
    }
  }

  /** What `!input.trim()` tests: the trimmed input is empty exactly when
      every character of the input is white space. */
  lemma {:induction false} TrimEmptyIffBlank(s: string)
    ensures Trim(s) == [] <==> AllWhiteSpace(s)
  {
    var t := TrimStart(s);
    if Trim(s) == [] {
      assert t[0..] == t;
      assert t == [];
      assert s[..|s|] == s;
    } else if t != [] {
      assert t[0] == s[|s| - |t|];
    }
  }

  /** `toLowerCase` on ASCII letters; every other character is kept. */
  function LowerChar(c: char): char
  {
    if 'A' <= c <= 'Z' then (c as int - 'A' as int + 'a' as int) as char else c
  }

  function ToLower(s: string): (r: string)
    ensures |r| == |s|
    ensures forall i :: 0 <= i < |s| ==> r[i] == LowerChar(s[i])
  {
    if s == [] then [] else [LowerChar(s[0])] + ToLower(s[1..])
  }

  /** Comparing the lower-cased input with a lower-case word ignores the
      case of the input's letters and nothing else: the input must have the
      word's length and agree with it letter by letter up to case. */
  lemma {:induction false} LowerMatchesWord(s: string, w: string)
    requires forall i :: 0 <= i < |w| ==> 'a' <= w[i] <= 'z'
    ensures ToLower(s) == w <==> EqualsIgnoringCase(s, w)
  {
    var l := ToLower(s);
    if |s| == |w| {
      forall i | 0 <= i < |s| ensures l[i] == w[i] <==> SameLetter(s[i], w[i]) {
        LowerCharMatches(s[i], w[i]);
      }
      if forall i :: 0 <= i < |s| ==> SameLetter(s[i], w[i]) {
        assert l == w;
      }
    }
  }

  /** `s` spells the lower-case word `w`, each letter in either case. */
  predicate EqualsIgnoringCase(s: string, w: string)
  {
    |s| == |w| && forall i :: 0 <= i < |s| ==> SameLetter(s[i], w[i])
  }

  /** `c` is the lower-case letter `d` or its upper-case form. */
  predicate SameLetter(c: char, d: char)
  {
    c == d || c as int == d as int - 32
  }

  lemma {:induction false} LowerCharMatches(c: char, d: char)
    requires 'a' <= d <= 'z'
    ensures LowerChar(c) == d <==> SameLetter(c, d)
  {
  }
}
