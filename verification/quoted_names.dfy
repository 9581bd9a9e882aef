/**
 * A reader for the generated Cypher text: the backtick-quoted names it
 * mentions, in order. Cypher quotes a variable, label or property key by
 * enclosing it in backticks; the query generator quotes every name it
 * emits. Reading the quoted names back is how the generator's output is
 * related to the fields, labels and id spaces it was made from.
 */
module QuotedText {
  import opened Wrappers
  import opened JavaText

  const BACKTICK: char := '`'

  /** `n` in backticks, the way the generator writes every name. */
  function Quote(n: string): (r: string)
    ensures |r| == |n| + 2 && r[0] == BACKTICK && r[|r| - 1] == BACKTICK && r[1..|r| - 1] == n
  {
    [BACKTICK] + n + [BACKTICK]
  }

  /**
   * The names between matching backticks, left to right. Text outside
   * backticks is skipped; an opening backtick with no closing one ends the
   * reading.
   */
  function QuotedNames(s: string): seq<string>
    decreases |s|
  {
    if s == [] then []
    else if s[0] != BACKTICK then QuotedNames(s[1..])
    else
      match IndexOf(s[1..], BACKTICK)
      case None => []
      case Some(j) => [s[1..j + 1]] + QuotedNames(s[j + 2..])
  }

  /** Text without backticks contributes no name: the reader goes on with what follows. */
  lemma {:induction false} ReadPlain(p: string, rest: string)
    requires BACKTICK !in p
    ensures QuotedNames(p + rest) == QuotedNames(rest)
  {
    if p != [] {
      assert p[0] in p;
      assert (p + rest)[0] == p[0] != BACKTICK;
      assert (p + rest)[1..] == p[1..] + rest;
      assert QuotedNames(p + rest) == QuotedNames(p[1..] + rest);
      assert BACKTICK !in p[1..] by {
        assert forall k :: 0 <= k < |p[1..]| ==> p[1..][k] == p[k + 1];
      }
      ReadPlain(p[1..], rest);
    } else {
      assert p + rest == rest;
    }
  }

  /** A quoted backtick-free name contributes exactly that name, and the reader goes on with what follows. */
  lemma ReadQuote(n: string, rest: string)
    requires BACKTICK !in n
    ensures QuotedNames(Quote(n) + rest) == [n] + QuotedNames(rest)
  {
    var s := Quote(n) + rest;
    assert s[0] == BACKTICK;
    assert s[1..] == n + ([BACKTICK] + rest);
    IndexOfAfter(n, [BACKTICK] + rest, BACKTICK);
    assert IndexOf(s[1..], BACKTICK) == Some(|n|);
    assert s[1..|n| + 1] == n;
    assert s[|n| + 2..] == rest;
  }

  /** Plain text, a quoted name, and whatever follows: the usual shape of one generated entry. */
  lemma ReadAround(p: string, n: string, rest: string)
    requires BACKTICK !in p && BACKTICK !in n
    ensures QuotedNames(p + Quote(n) + rest) == [n] + QuotedNames(rest)
  {
    assert p + Quote(n) + rest == p + (Quote(n) + rest);
    ReadPlain(p, Quote(n) + rest);
    ReadQuote(n, rest);
  }

  /**
   * Entries of the form text-then-quoted-name, joined by a separator
   * without backticks, read as their names in order.
   */
  lemma {:induction false} JoinedEntriesRead(es: seq<string>, ps: seq<string>, ns: seq<string>, sep: string, rest: string)
    requires |es| == |ps| == |ns|
    requires forall i :: 0 <= i < |es| ==> es[i] == ps[i] + Quote(ns[i]) && BACKTICK !in ps[i] && BACKTICK !in ns[i]
    requires BACKTICK !in sep
    ensures QuotedNames(Join(es, sep) + rest) == ns + QuotedNames(rest)
  {
    if |es| == 0 {
      assert Join(es, sep) + rest == rest;
    } else if |es| == 1 {
      ReadAround(ps[0], ns[0], rest);
      assert ns == [ns[0]];
    } else {
      var tail := Join(es[1..], sep) + rest;
      JoinCons(es, sep, rest);
      assert es[0] + (sep + tail) == ps[0] + Quote(ns[0]) + (sep + tail);
      ReadAround(ps[0], ns[0], sep + tail);
      ReadPlain(sep, tail);
      JoinedEntriesRead(es[1..], ps[1..], ns[1..], sep, rest);
      NamesAssoc([ns[0]], ns[1..], QuotedNames(rest));
      assert [ns[0]] + ns[1..] == ns;
    }
  }

  /** Two quoted names, each after backtick-free text, and backtick-free text after them. */
  lemma ReadPair(a: string, n1: string, b: string, n2: string, c: string, rest: string)
    requires BACKTICK !in a && BACKTICK !in n1 && BACKTICK !in b && BACKTICK !in n2 && BACKTICK !in c
    ensures QuotedNames(a + Quote(n1) + b + Quote(n2) + c + rest) == [n1, n2] + QuotedNames(rest)
  {
    assert a + Quote(n1) + b + Quote(n2) + c + rest == a + Quote(n1) + ((b + Quote(n2)) + (c + rest));
    ReadAround(a, n1, (b + Quote(n2)) + (c + rest));
    assert (b + Quote(n2)) + (c + rest) == b + Quote(n2) + (c + rest);
    ReadAround(b, n2, c + rest);
    ReadPlain(c, rest);
  }

  /** Text in a backtick-free frame reads as the text alone. */
  lemma ReadFramed(a: string, body: string, c: string, rest: string, ns: seq<string>)
    requires BACKTICK !in a && BACKTICK !in c
    requires QuotedNames(body + (c + rest)) == ns + QuotedNames(c + rest)
    ensures QuotedNames(a + body + c + rest) == ns + QuotedNames(rest)
  {
    assert a + body + c + rest == a + (body + (c + rest));
    ReadPlain(a, body + (c + rest));
    ReadPlain(c, rest);
  }

  /** Two named parts between backtick-free text read as the names of the first part, then those of the second. */
  lemma ReadTwoParts(a: string, x: string, m: string, y: string, c: string, xs: seq<string>, ys: seq<string>)
    requires BACKTICK !in a && BACKTICK !in m && BACKTICK !in c
    requires QuotedNames(x + (m + (y + c))) == xs + QuotedNames(m + (y + c))
    requires QuotedNames(y + c) == ys + QuotedNames(c)
    ensures QuotedNames(a + x + m + y + c) == xs + ys
  {
    var tail := m + (y + c);
    assert a + x + m + y + c == a + (x + tail) by {
      SeqAssoc(a, x, m, y, c);
    }
    ReadPlain(a, x + tail);
    ReadPlain(m, y + c);
    NoNames(c);
    assert ys + [] == ys;
  }

  /** Backtick-free text ahead of a reading leaves the reading as it was. */
  lemma ReadAfterPlain(h1: string, h2: string, w: string, c: string, ns: seq<string>)
    requires BACKTICK !in h1 && BACKTICK !in h2
    requires QuotedNames(w + c) == ns + QuotedNames(c)
    ensures QuotedNames(h1 + h2 + w + c) == ns + QuotedNames(c)
  {
    assert h1 + h2 + w + c == h1 + (h2 + (w + c));
    ReadPlain(h1, h2 + (w + c));
    ReadPlain(h2, w + c);
  }

  /** Five strings concatenate the same from the left as from the right. */
  lemma SeqAssoc(a: string, x: string, m: string, y: string, c: string)
    ensures a + x + m + y + c == a + (x + (m + (y + c)))
  {
  }

  /** Lists of names concatenate associatively. */
  lemma NamesAssoc(a: seq<string>, b: seq<string>, c: seq<string>)
    ensures a + (b + c) == (a + b) + c
  {
  }

  /** Three backtick-free texts concatenate to a backtick-free text. */
  lemma Unquoted3(a: string, b: string, c: string)
    requires BACKTICK !in a && BACKTICK !in b && BACKTICK !in c
    ensures BACKTICK !in a + b + c
  {
  }

  /** Text that holds no backtick reads no name. */
  lemma NoNames(p: string)
    requires BACKTICK !in p
    ensures QuotedNames(p) == []
  {
    ReadPlain(p, "");
    assert p + "" == p;
  }

  /** `%d` output never holds a backtick. */
  lemma NumberUnquoted(i: int)
    ensures BACKTICK !in IntToString(i)
  {
    var r := IntToString(i);
    if i < 0 {
      assert forall k :: 1 <= k < |r| ==> r[k] == r[1..][k - 1];
    }
  }
}
