/**
 * Fixed names of the header format and of the generated query, and the
 * FIELD_PATTERN grammar of one header attribute,
 *   ^(?<name>[^:]*):(?<fieldtype>\w+)(\((?<idspace>\w+)\))?(?<array>\[\])?$
 * written as a recogniser (MatchFieldPattern) beside a reference reading of
 * the pattern (FieldPatternDescribes), with both directions proved.
 */
module Constants {
  import opened Wrappers
  import opened JavaText

  const ARRAY_PATTERN: string := "[]"

  const IGNORE_FIELD: string := "IGNORE"
  const ID_FIELD: string := "ID"
  const START_ID_FIELD: string := "START_ID"
  const END_ID_FIELD: string := "END_ID"

  /** Markers of dynamic labels and relationship types; CsvHeaderField.isMeta names them, but they are declared outside the shown constants. */
  const LABEL_FIELD: string := "LABEL"
  const TYPE_FIELD: string := "TYPE"

  const IDSPACE_LABEL_PREFIX: string := "IdSpace"
  const IDSPACE_ATTR_PREFIX: string := "__csv_id"
  const ID_PROPERTY: string := IDSPACE_ATTR_PREFIX + ToLower(ID_FIELD)
  const START_ID_PROPERTY: string := IDSPACE_ATTR_PREFIX + ToLower(START_ID_FIELD)
  const END_ID_PROPERTY: string := IDSPACE_ATTR_PREFIX + ToLower(END_ID_FIELD)

  const LINE_VAR: string := "line"

  /** The three identifier properties spelled out; no two of them coincide. */
  lemma IdProperties()
    ensures ID_PROPERTY == "__csv_idid"
    ensures START_ID_PROPERTY == "__csv_idstart_id"
    ensures END_ID_PROPERTY == "__csv_idend_id"
    ensures ID_PROPERTY != START_ID_PROPERTY && ID_PROPERTY != END_ID_PROPERTY && START_ID_PROPERTY != END_ID_PROPERTY
  {
    assert ToLower(ID_FIELD) == "id";
    assert ToLower(START_ID_FIELD) == "start_id";
    assert ToLower(END_ID_FIELD) == "end_id";
    assert START_ID_PROPERTY[8] != END_ID_PROPERTY[8];
  }

  /** `\w` of java.util.regex without the UNICODE_CHARACTER_CLASS flag: [a-zA-Z_0-9]. */
  predicate IsWordChar(c: char) {
    'a' <= c <= 'z' || 'A' <= c <= 'Z' || '0' <= c <= '9' || c == '_'
  }

  /** The groups of a FIELD_PATTERN match; an optional group that took no part is None (Java's null). */
  datatype FieldMatch = FieldMatch(name: string, fieldtype: string, idspace: Option<string>, arrayGroup: Option<string>)

  /** What each group of FIELD_PATTERN can hold. */
  predicate WellFormedFieldMatch(m: FieldMatch) {
    && ':' !in m.name
    && |m.fieldtype| > 0 && All(m.fieldtype, IsWordChar)
    && (m.idspace.Some? ==> |m.idspace.value| > 0 && All(m.idspace.value, IsWordChar))
    && (m.arrayGroup.Some? ==> m.arrayGroup.value == ARRAY_PATTERN)
  }

  /** The text a match spans: its groups in order with the pattern's literal characters between them. */
  function FieldMatchText(m: FieldMatch): string {
    m.name + ":" + m.fieldtype + SuffixText(Suffix(m.idspace, m.arrayGroup))
  }

  /** `t` is matched by FIELD_PATTERN with the groups of `m`: the match spans a prefix of `t` and `$` accepts what is left. */
  ghost predicate FieldPatternDescribes(t: string, m: FieldMatch) {
    && WellFormedFieldMatch(m)
    && FieldMatchText(m) <= t
    && IsDollarTail(t[|FieldMatchText(m)|..])
  }

  /** The groups of the optional part after the type. */
  datatype Suffix = Suffix(idspace: Option<string>, arrayGroup: Option<string>)

  /** The literal text of those groups. */
  function SuffixText(x: Suffix): string {
    (match x.idspace case Some(s) => "(" + s + ")" case None => "") + x.arrayGroup.GetOr("")
  }

  /** `(?<array>\[\])?` at the end of the text. */
  function MatchArray(rest: string): Option<Option<string>> {
    if rest == "" then Some(None)
    else if rest == ARRAY_PATTERN then Some(Some(ARRAY_PATTERN))
    else None
  }

  /** The optional `(\((?<idspace>\w+)\))?(?<array>\[\])?` tail, which must reach the end of the text. */
  function MatchSuffix(tail: string): (r: Option<Suffix>)
  {
    var k := if |tail| > 0 && tail[0] == '(' then Span(tail[1..], IsWordChar) else 0;
    if 0 < k && k + 1 < |tail| && tail[k + 1] == ')' then
      match MatchArray(tail[k + 2..])
      case Some(g) => Some(Suffix(Some(tail[1..k + 1]), g))
      case None => None
    else
      match MatchArray(tail)
      case Some(g) => Some(Suffix(None, g))
      case None => None
  }

  /**
   * Matcher.find for FIELD_PATTERN. The name is everything before the first
   * colon, the type is the longest run of word characters after it, and the
   * rest must be an optional parenthesised id space and an optional "[]".
   */
  function MatchFieldPattern(t: string): (r: Option<FieldMatch>)
    ensures r.Some? ==> WellFormedFieldMatch(r.value)
    ensures r.Some? ==> r.value.arrayGroup == None || r.value.arrayGroup == Some(ARRAY_PATTERN)
  {
    MatchFieldCore(BeforeDollar(t))
  }

  /** The pattern between `^` and `$`, which has to span all of `core`. */
  function MatchFieldCore(core: string): (r: Option<FieldMatch>)
    ensures r.Some? ==> WellFormedFieldMatch(r.value)
  {
    match IndexOf(core, ':')
    case None => None
    case Some(colon) =>
      var rest := core[colon + 1..];
      var k := Span(rest, IsWordChar);
      if k == 0 then None
      else match MatchSuffix(rest[k..])
        case None => None
        case Some(x) => Some(FieldMatch(core[..colon], rest[..k], x.idspace, x.arrayGroup))
  }

  lemma MatchSuffixSound(tail: string)
    requires MatchSuffix(tail).Some?
    ensures var x := MatchSuffix(tail).value;
      && (x.idspace.Some? ==> |x.idspace.value| > 0 && All(x.idspace.value, IsWordChar))
      && tail == SuffixText(x)
  {
    var k := if |tail| > 0 && tail[0] == '(' then Span(tail[1..], IsWordChar) else 0;
    if 0 < k && k + 1 < |tail| && tail[k + 1] == ')' {
      assert tail == "(" + tail[1..k + 1] + ")" + tail[k + 2..];
    }
  }

  lemma MatchSuffixComplete(x: Suffix)
    requires x.idspace.Some? ==> |x.idspace.value| > 0 && All(x.idspace.value, IsWordChar)
    requires x.arrayGroup.Some? ==> x.arrayGroup.value == ARRAY_PATTERN
    ensures MatchSuffix(SuffixText(x)) == Some(x)
  {
    var tail := SuffixText(x);
    var g := x.arrayGroup.GetOr("");
    if x.idspace.Some? {
      var s := x.idspace.value;
      assert tail == "(" + (s + (")" + g));
      assert tail[1..] == s + (")" + g);
      SpanOf(s, ")" + g, IsWordChar);
      assert tail[1..|s| + 1] == s;
      assert tail[|s| + 2..] == g;
    } else {
      assert tail == g;
    }
  }

  /** Whatever the recogniser returns is a match of FIELD_PATTERN. */
  lemma MatchFieldPatternSound(t: string)
    requires MatchFieldPattern(t).Some?
    ensures FieldPatternDescribes(t, MatchFieldPattern(t).value)
  {
    MatchFieldCoreSound(BeforeDollar(t));
  }

  lemma MatchFieldCoreSound(core: string)
    requires MatchFieldCore(core).Some?
    ensures FieldMatchText(MatchFieldCore(core).value) == core
  {
    var colon := IndexOf(core, ':').value;
    var rest := core[colon + 1..];
    var k := Span(rest, IsWordChar);
    var tail := rest[k..];
    MatchSuffixSound(tail);
    var m := MatchFieldCore(core).value;
    assert Suffix(m.idspace, m.arrayGroup) == MatchSuffix(tail).value;
    assert rest == m.fieldtype + tail;
    assert core == m.name + ":" + rest;
  }

  /** Every match of FIELD_PATTERN is the one the recogniser finds. */
  lemma MatchFieldPatternComplete(t: string, m: FieldMatch)
    requires FieldPatternDescribes(t, m)
    ensures MatchFieldPattern(t) == Some(m)
  {
    var x := FieldMatchText(m);
    var tail := SuffixText(Suffix(m.idspace, m.arrayGroup));
    assert x[|x| - 1] == ')' || x[|x| - 1] == ']' || IsWordChar(x[|x| - 1]) by {
      if tail == "" {
        assert x[|x| - 1] == m.fieldtype[|m.fieldtype| - 1];
      } else {
        assert x[|x| - 1] == tail[|tail| - 1];
      }
    }
    assert t == x + t[|x|..];
    BeforeDollarOf(x, t[|x|..]);
    MatchFieldCoreComplete(m);
  }

  /** The recogniser reports no match exactly when FIELD_PATTERN has none. */
  lemma MatchFieldPatternNone(t: string)
    ensures MatchFieldPattern(t).None? <==> forall m :: !FieldPatternDescribes(t, m)
  {
    if MatchFieldPattern(t).Some? {
      MatchFieldPatternSound(t);
    } else {
      forall m | FieldPatternDescribes(t, m) ensures false {
        MatchFieldPatternComplete(t, m);
      }
    }
  }

  lemma MatchFieldCoreComplete(m: FieldMatch)
    requires WellFormedFieldMatch(m)
    ensures MatchFieldCore(FieldMatchText(m)) == Some(m)
  {
    var x := FieldMatchText(m);
    var tail := SuffixText(Suffix(m.idspace, m.arrayGroup));
    assert x == m.name + ":" + (m.fieldtype + tail);
    assert x[|m.name|] == ':';
    assert x[..|m.name|] == m.name;
    IndexOfFirst(x, ':', |m.name|);
    var rest := x[|m.name| + 1..];
    assert rest == m.fieldtype + tail;
    assert tail == [] || !IsWordChar(tail[0]);
    SpanOf(m.fieldtype, tail, IsWordChar);
    assert rest[..|m.fieldtype|] == m.fieldtype;
    assert rest[|m.fieldtype|..] == tail;
    MatchSuffixComplete(Suffix(m.idspace, m.arrayGroup));
  }
}
