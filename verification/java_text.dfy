/**
 * The pieces of java.lang.String and java.util.regex behaviour that the header
 * parsers and the query generator rely on, written out over Dafny strings:
 * indexOf, deleting one character everywhere, String.split on a quoted literal
 * separator, ASCII upper/lower casing, endsWith, where a non-multiline `$` may
 * match, and the decimal rendering of `%d`.
 */
module JavaText {
  import opened Wrappers

  /** Position of the first occurrence of `c` in `s` (String.indexOf). */
  function IndexOf(s: string, c: char): (r: Option<nat>)
    ensures r.None? <==> c !in s
    ensures r.Some? ==> r.value < |s| && s[r.value] == c && forall j :: 0 <= j < r.value ==> s[j] != c
  {
    if s == [] then None
    else if s[0] == c then Some(0)
    else match IndexOf(s[1..], c)
      case None => None
      case Some(i) => Some(i + 1)
  }

  /** An occurrence with no earlier occurrence is the one IndexOf finds. */
  lemma IndexOfFirst(s: string, c: char, i: nat)
    requires i < |s| && s[i] == c
    requires forall j :: 0 <= j < i ==> s[j] != c
    ensures IndexOf(s, c) == Some(i)
  {
  }

  /** IndexOf skips a prefix that does not hold the character. */
  lemma {:induction false} IndexOfAfter(a: string, b: string, c: char)
    requires c !in a && c in b
    ensures IndexOf(a + b, c) == Some(|a| + IndexOf(b, c).value)
  {
    if a == [] {
      assert a + b == b;
    } else {
      assert (a + b)[0] == a[0] && a[0] in a;
      assert (a + b)[1..] == a[1..] + b;
      assert c !in a[1..] by {
        assert forall x :: x in a[1..] ==> x in a;
      }
      IndexOfAfter(a[1..], b, c);
    }
  }

  /** Length of the longest prefix of `s` whose characters all satisfy `p` (a greedy `[...]*`). */
  function Span(s: string, p: char -> bool): (k: nat)
    ensures k <= |s|
    ensures forall i :: 0 <= i < k ==> p(s[i])
    ensures k < |s| ==> !p(s[k])
  {
    if s == [] || !p(s[0]) then 0 else 1 + Span(s[1..], p)
  }

  /** Every character of `s` satisfies `p`. */
  predicate All(s: string, p: char -> bool) {
    forall i :: 0 <= i < |s| ==> p(s[i])
  }

  /** The greedy span of a text that starts with a run of `p` characters ended by a non-`p` character or the end. */
  lemma SpanOf(a: string, b: string, p: char -> bool)
    requires All(a, p)
    requires b == [] || !p(b[0])
    ensures Span(a + b, p) == |a|
  {
    if a == [] {
      assert a + b == b;
    } else {
      assert (a + b)[1..] == a[1..] + b;
      SpanOf(a[1..], b, p);
    }
  }

  /** `s` with every occurrence of `q` deleted and the other characters kept in order. */
  function RemoveChar(s: string, q: char): (r: string)
    ensures q !in r
    ensures |r| <= |s|
    ensures forall x :: x != q ==> multiset(r)[x] == multiset(s)[x]
    ensures q !in s ==> r == s
  {
    if s == [] then []
    else
      assert s == [s[0]] + s[1..];
      (if s[0] == q then [] else [s[0]]) + RemoveChar(s[1..], q)
  }

  /** Deleting a character commutes with concatenation. */
  lemma {:induction false} RemoveCharConcat(a: string, b: string, q: char)
    ensures RemoveChar(a + b, q) == RemoveChar(a, q) + RemoveChar(b, q)
    decreases |a|
  {
    if a == [] {
      assert a + b == b;
    } else {
      assert (a + b)[1..] == a[1..] + b;
      RemoveCharConcat(a[1..], b, q);
    }
  }

  /** Java's non-multiline `$` may match before one final line terminator; these are the terminators. */
  predicate IsLineTerminator(c: char) {
    c == '\n' || c == '\r' || c == '\U{0085}' || c == '\U{2028}' || c == '\U{2029}'
  }

  /** What a non-multiline `$` lets stand after the matched text: nothing, "\r\n", or one line terminator. */
  predicate IsDollarTail(e: string) {
    e == [] || e == "\r\n" || (|e| == 1 && IsLineTerminator(e[0]))
  }

  /** The text a `^...$` pattern has to match in full: `t` without the final line terminator `$` tolerates. */
  function BeforeDollar(t: string): (core: string)
    ensures core <= t && IsDollarTail(t[|core|..])
  {
    if |t| >= 2 && t[|t| - 2..] == "\r\n" then t[..|t| - 2]
    else if |t| >= 1 && IsLineTerminator(t[|t| - 1]) then t[..|t| - 1]
    else t
  }

  /**
   * A pattern whose matches never end in a line terminator sees the same text
   * whichever tail `$` allowed: BeforeDollar recovers exactly the matched part.
   */
  lemma BeforeDollarOf(core: string, e: string)
    requires IsDollarTail(e)
    requires core != [] && !IsLineTerminator(core[|core| - 1])
    ensures BeforeDollar(core + e) == core
  {
    var t := core + e;
    if e == [] {
      assert t == core;
    } else if e == "\r\n" {
      assert t[|t| - 2..] == "\r\n";
      assert t[..|t| - 2] == core;
    } else {
      assert t[|t| - 2..] == [core[|core| - 1], e[0]];
      assert t[..|t| - 1] == core;
    }
  }

  /** All pieces of `s` between occurrences of `c`, empty ones included (no trailing removal). */
  function SplitAll(s: string, c: char): (r: seq<string>)
    ensures |r| >= 1
    ensures forall i :: 0 <= i < |r| ==> c !in r[i]
    decreases |s|
  {
    match IndexOf(s, c)
    case None => [s]
    case Some(i) => [s[..i]] + SplitAll(s[i + 1..], c)
  }

  /** The elements of `xs` with `sep` between neighbours (String.join / Collectors.joining). */
  function Join(xs: seq<string>, sep: string): string
  {
    if |xs| == 0 then "" else if |xs| == 1 then xs[0] else xs[0] + sep + Join(xs[1..], sep)
  }

  /** Appending to an empty builder, with one optional append, yields the concatenation of what was appended. */
  lemma BuilderAppends(a: string, b: string, optional: bool, c: string, d: string)
    ensures (if optional then "" + a + b else "" + a) + c + d == a + (if optional then b else "") + c + d
  {
  }

  /** A join of several elements, followed by more text, opens with its first element and a separator. */
  lemma JoinCons(xs: seq<string>, sep: string, rest: string)
    requires |xs| >= 2
    ensures Join(xs, sep) + rest == xs[0] + (sep + (Join(xs[1..], sep) + rest))
  {
  }

  lemma {:induction false} JoinSnoc(xs: seq<string>, x: string, sep: string)
    requires |xs| >= 1
    ensures Join(xs + [x], sep) == Join(xs, sep) + sep + x
  {
    if |xs| == 1 {
      assert xs + [x] == [xs[0], x];
    } else {
      assert (xs + [x])[1..] == xs[1..] + [x];
      JoinSnoc(xs[1..], x, sep);
    }
  }

  /** Joining the pieces with the separator gives back the text. */
  lemma {:induction false} JoinSplitAll(s: string, c: char)
    ensures Join(SplitAll(s, c), [c]) == s
    decreases |s|
  {
    match IndexOf(s, c)
    case None =>
    case Some(i) =>
      var rest := SplitAll(s[i + 1..], c);
      assert SplitAll(s, c) == [s[..i]] + rest;
      JoinFront(s[..i], rest, [c]);
      JoinSplitAll(s[i + 1..], c);
      CutAt(s, i);
  }

  /** Joining one more element in front puts it and a separator ahead of the join. */
  lemma JoinFront(x: string, ys: seq<string>, sep: string)
    requires |ys| >= 1
    ensures Join([x] + ys, sep) == x + sep + Join(ys, sep)
  {
    assert ([x] + ys)[1..] == ys;
  }

  /** A text is what comes before a position, the character there, and what comes after. */
  lemma CutAt(s: string, i: nat)
    requires i < |s|
    ensures s == s[..i] + [s[i]] + s[i + 1..]
  {
  }

  /** Splitting a join of separator-free pieces gives back the pieces. */
  lemma {:induction false} SplitAllJoin(xs: seq<string>, c: char)
    requires |xs| >= 1
    requires forall i :: 0 <= i < |xs| ==> c !in xs[i]
    ensures SplitAll(Join(xs, [c]), c) == xs
  {
    if |xs| > 1 {
      var s := Join(xs, [c]);
      var n := |xs[0]|;
      assert s == xs[0] + [c] + Join(xs[1..], [c]);
      assert s[..n] == xs[0];
      IndexOfFirst(s, c, n);
      assert s[n + 1..] == Join(xs[1..], [c]);
      SplitAllJoin(xs[1..], c);
    }
  }

  /** A separator appended to a text adds one empty piece at the end. */
  lemma {:induction false} SplitAllSnocSeparator(s: string, c: char)
    ensures SplitAll(s + [c], c) == SplitAll(s, c) + [""]
    decreases |s|
  {
    var t := s + [c];
    IndexOfSnoc(s, c);
    match IndexOf(s, c)
    case None =>
      assert t[..|s|] == s;
      assert t[|s| + 1..] == "";
      assert SplitAll("", c) == [""];
      assert SplitAll(t, c) == [s] + [""];
      assert SplitAll(s, c) == [s];
    case Some(i) =>
      var rest := s[i + 1..];
      assert t[..i] == s[..i];
      assert t[i + 1..] == rest + [c];
      SplitAllSnocSeparator(rest, c);
      assert SplitAll(t, c) == [s[..i]] + (SplitAll(rest, c) + [""]);
      assert SplitAll(s, c) == [s[..i]] + SplitAll(rest, c);
      PiecesAssoc([s[..i]], SplitAll(rest, c), [""]);
  }

  lemma PiecesAssoc(a: seq<string>, b: seq<string>, c: seq<string>)
    ensures a + (b + c) == (a + b) + c
  {
  }

  /** With the character appended, IndexOf finds the first occurrence in `s`, or else the appended one. */
  lemma {:induction false} IndexOfSnoc(s: string, c: char)
    ensures IndexOf(s + [c], c) == Some(IndexOf(s, c).GetOr(|s|))
    decreases |s|
  {
    if s == [] {
      assert s + [c] == [c];
    } else if s[0] != c {
      assert (s + [c])[0] == s[0];
      assert (s + [c])[1..] == s[1..] + [c];
      IndexOfSnoc(s[1..], c);
    } else {
      assert (s + [c])[0] == c;
    }
  }

  /** The longest prefix of `xs` that does not end with an empty string. */
  function DropTrailingEmpty(xs: seq<string>): (r: seq<string>)
    ensures r <= xs
    ensures r == [] || r[|r| - 1] != ""
    ensures forall i :: |r| <= i < |xs| ==> xs[i] == ""
  {
    if xs == [] then []
    else if xs[|xs| - 1] == "" then DropTrailingEmpty(xs[..|xs| - 1])
    else xs
  }

  /**
   * `s.split(Pattern.quote(String.valueOf(c)))`: the separator is a literal
   * character; with the default limit, trailing empty pieces are discarded,
   * but a text without the separator comes back whole, even when it is empty.
   */
  function Split(s: string, c: char): (r: seq<string>)
    ensures r <= SplitAll(s, c)
    ensures forall i :: 0 <= i < |r| ==> c !in r[i]
    ensures c !in s ==> r == [s]
    ensures c in s ==> r == [] || r[|r| - 1] != ""
  {
    if c !in s then [s] else DropTrailingEmpty(SplitAll(s, c))
  }

  /** Joining pieces that are all empty gives a text made of separators only. */
  lemma {:induction false} JoinOfEmpties(xs: seq<string>, c: char)
    requires forall i :: 0 <= i < |xs| ==> xs[i] == ""
    ensures |Join(xs, [c])| == if xs == [] then 0 else |xs| - 1
    ensures forall i :: 0 <= i < |Join(xs, [c])| ==> Join(xs, [c])[i] == c
  {
    if |xs| > 1 {
      JoinOfEmpties(xs[1..], c);
    }
  }

  /** What dropping trailing empty pieces removes from the joined text is separators only. */
  lemma {:induction false} DropTrailingEmptyRebuild(xs: seq<string>, c: char)
    ensures Join(DropTrailingEmpty(xs), [c]) <= Join(xs, [c])
    ensures forall i :: |Join(DropTrailingEmpty(xs), [c])| <= i < |Join(xs, [c])| ==> Join(xs, [c])[i] == c
  {
    if xs != [] && xs[|xs| - 1] == "" {
      var ys := xs[..|xs| - 1];
      assert xs == ys + [""];
      DropTrailingEmptyRebuild(ys, c);
      if ys != [] {
        JoinSnoc(ys, "", [c]);
      }
    }
  }

  /** The pieces of `split`, joined again, are a prefix of the text, and the rest of it is separators. */
  lemma SplitRebuild(s: string, c: char)
    ensures Join(Split(s, c), [c]) <= s
    ensures forall i :: |Join(Split(s, c), [c])| <= i < |s| ==> s[i] == c
  {
    JoinSplitAll(s, c);
    if c in s {
      DropTrailingEmptyRebuild(SplitAll(s, c), c);
    }
  }

  /** A character the text does not hold is in none of its pieces. */
  lemma SplitWithin(s: string, c: char, x: char)
    requires x !in s
    ensures forall i :: 0 <= i < |Split(s, c)| ==> x !in Split(s, c)[i]
  {
    SplitAllWithin(s, c, x);
  }

  lemma {:induction false} SplitAllWithin(s: string, c: char, x: char)
    requires x !in s
    ensures forall i :: 0 <= i < |SplitAll(s, c)| ==> x !in SplitAll(s, c)[i]
    decreases |s|
  {
    match IndexOf(s, c)
    case None =>
    case Some(i) =>
      assert x !in s[..i] by {
        forall j | 0 <= j < i ensures s[..i][j] != x {
          assert s[..i][j] == s[j];
        }
      }
      var after := s[i + 1..];
      assert x !in after by {
        forall j | 0 <= j < |after| ensures after[j] != x {
          assert after[j] == s[i + 1 + j];
        }
      }
      var rest := SplitAll(after, c);
      SplitAllWithin(s[i + 1..], c, x);
      var r := SplitAll(s, c);
      assert r == [s[..i]] + rest;
      forall k | 0 <= k < |r| ensures x !in r[k] {
        if k > 0 {
          assert r[k] == rest[k - 1];
        }
      }
  }

  /** A separator at the end of a non-empty text adds no piece. */
  lemma SplitTrailingSeparator(s: string, c: char)
    requires s != ""
    ensures Split(s + [c], c) == Split(s, c)
  {
    SplitAllSnocSeparator(s, c);
    assert (s + [c])[|s|] == c;
    var xs := SplitAll(s, c);
    assert Split(s + [c], c) == DropTrailingEmpty(xs + [""]);
    assert (xs + [""])[..|xs|] == xs;
    assert DropTrailingEmpty(xs + [""]) == DropTrailingEmpty(xs);
    if c !in s {
      assert xs == [s];
    }
  }

  /** `split` returns no piece at all exactly when the text is non-empty and made of separators only. */
  lemma SplitEmpty(s: string, c: char)
    ensures Split(s, c) == [] <==> s != "" && forall i :: 0 <= i < |s| ==> s[i] == c
  {
    var xs := SplitAll(s, c);
    JoinSplitAll(s, c);
    if s != "" && forall i :: 0 <= i < |s| ==> s[i] == c {
      assert s[0] == c;
      forall k | 0 <= k < |xs|
        ensures xs[k] == ""
      {
        if xs[k] != "" {
          JoinHasPiece(xs, c, k, 0);
          assert false;
        }
      }
    }
    if Split(s, c) == [] {
      assert c in s;
      JoinOfEmpties(xs, c);
    }
  }

  /** A character of a piece shows up in the joined text, and it is not a separator. */
  lemma {:induction false} JoinHasPiece(xs: seq<string>, c: char, k: nat, j: nat)
    requires k < |xs| && j < |xs[k]|
    requires forall i :: 0 <= i < |xs| ==> c !in xs[i]
    ensures exists p :: 0 <= p < |Join(xs, [c])| && Join(xs, [c])[p] != c
  {
    if k == 0 {
      if |xs| == 1 {
        assert Join(xs, [c])[j] == xs[0][j];
      } else {
        assert Join(xs, [c])[j] == xs[0][j];
      }
    } else {
      JoinHasPiece(xs[1..], c, k - 1, j);
      var p :| 0 <= p < |Join(xs[1..], [c])| && Join(xs[1..], [c])[p] != c;
      assert Join(xs, [c])[|xs[0]| + 1 + p] == Join(xs[1..], [c])[p];
    }
  }

  /**
   * Upper case of one character, as String.toUpperCase gives it outside the
   * Turkish and Azeri locales, for every character whose upper case is an
   * ASCII letter: a-z, the dotless i and the long s.
   */
  function ToUpperChar(c: char): char {
    if 'a' <= c <= 'z' then (c as int - 32) as char
    else if c == '\U{0131}' then 'I'
    else if c == '\U{017F}' then 'S'
    else c
  }

  /** ASCII lower case of one character (String.toLowerCase on the letters A-Z). */
  function ToLowerChar(c: char): char {
    if 'A' <= c <= 'Z' then (c as int + 32) as char else c
  }

  function ToUpper(s: string): (r: string)
    ensures |r| == |s|
    ensures forall i :: 0 <= i < |s| ==> r[i] == ToUpperChar(s[i])
  {
    seq(|s|, i requires 0 <= i < |s| => ToUpperChar(s[i]))
  }

  function ToLower(s: string): (r: string)
    ensures |r| == |s|
    ensures forall i :: 0 <= i < |s| ==> r[i] == ToLowerChar(s[i])
  {
    seq(|s|, i requires 0 <= i < |s| => ToLowerChar(s[i]))
  }

  /** String.endsWith. */
  predicate EndsWith(s: string, suffix: string) {
    |suffix| <= |s| && s[|s| - |suffix|..] == suffix
  }

  predicate IsDigit(c: char) {
    '0' <= c <= '9'
  }

  function DigitChar(d: nat): (c: char)
    requires d < 10
    ensures IsDigit(c) && c as int - '0' as int == d
  {
    ('0' as int + d) as char
  }

  /** Decimal digits of `n`, most significant first, without leading zeros (`%d` of a non-negative int). */
  function NatToString(n: nat): (r: string)
    ensures |r| >= 1 && All(r, IsDigit)
    ensures r[0] == '0' <==> n == 0
  {
    if n < 10 then [DigitChar(n)] else NatToString(n / 10) + [DigitChar(n % 10)]
  }

  /** The number a string of decimal digits denotes. */
  function DecimalValue(s: string): nat
    requires All(s, IsDigit)
  {
    if s == [] then 0 else 10 * DecimalValue(s[..|s| - 1]) + (s[|s| - 1] as int - '0' as int)
  }

  /** Reading the rendered digits back gives the number. */
  lemma {:induction false} DecimalRoundTrip(n: nat)
    ensures DecimalValue(NatToString(n)) == n
  {
    if n >= 10 {
      var s := NatToString(n);
      assert s[..|s| - 1] == NatToString(n / 10);
      DecimalRoundTrip(n / 10);
    }
  }

  /** `%d` of an int: a minus sign for negative values, then the digits. */
  function IntToString(i: int): (r: string)
    ensures i >= 0 ==> All(r, IsDigit) && DecimalValue(r) == i
    ensures i < 0 ==> |r| >= 2 && r[0] == '-' && All(r[1..], IsDigit) && DecimalValue(r[1..]) == -i
  {
    if i < 0 then
      var d := NatToString(-i);
      DecimalRoundTrip(-i);
      assert ("-" + d)[1..] == d;
      "-" + d
    else
      DecimalRoundTrip(i);
      NatToString(i)
  }
}
