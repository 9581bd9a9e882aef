/**
 * CsvField.from, the older attribute parser: a case-insensitive `:IGNORE`
 * rule, then the identifier grammar
 *   ^[-a-zA-Z]*:(ID|START_ID|END_ID)(\(([-a-zA-Z]+)\))?$
 * and then the plain grammar
 *   ^([-a-zA-Z]+)(:([-a-zA-Z]+)(\[\])?)?$
 * Each grammar is a recogniser with a reference reading beside it and
 * soundness and completeness proved, as for FIELD_PATTERN.
 */
module Field {
  import opened Wrappers
  import opened JavaText
  import opened Constants

  /** IDENTIFIER_PATTERN: `[-a-zA-Z]`. */
  predicate IsIdentChar(c: char) {
    c == '-' || 'a' <= c <= 'z' || 'A' <= c <= 'Z'
  }

  /** The immutable record; `idSpace` is Java's Optional. */
  datatype CsvField = CsvField(index: int, name: string, fieldType: string, isArray: bool, idSpace: Option<string>)

  /** The IllegalStateException thrown for an attribute neither grammar accepts; it carries the raw attribute. */
  datatype FieldError = NotWellFormed(attribute: string)

  const MESSAGE_HEAD: string := "Header is not well-formed, field '"
  const MESSAGE_TAIL: string := "' cannot be parsed"

  /** The exception's message, and the way back from it to the attribute. */
  function Message(e: FieldError): (m: string)
    ensures MESSAGE_HEAD <= m && |m| == |MESSAGE_HEAD| + |e.attribute| + |MESSAGE_TAIL|
    ensures m[|MESSAGE_HEAD|..|m| - |MESSAGE_TAIL|] == e.attribute
  {
    MESSAGE_HEAD + e.attribute + MESSAGE_TAIL
  }

  // ---------------------------------------------------------------- identifier grammar

  /** A match of the identifier grammar: the (uncaptured) name, group 1 and group 3. */
  datatype IdMatch = IdMatch(name: string, marker: string, idSpace: Option<string>)

  predicate IsIdMarker(s: string) {
    s == ID_FIELD || s == START_ID_FIELD || s == END_ID_FIELD
  }

  predicate IsIdentWord(s: string) {
    |s| > 0 && All(s, IsIdentChar)
  }

  predicate WellFormedIdMatch(m: IdMatch) {
    All(m.name, IsIdentChar) && IsIdMarker(m.marker) && (m.idSpace.Some? ==> IsIdentWord(m.idSpace.value))
  }

  function IdSpaceText(o: Option<string>): string {
    match o
    case Some(s) => "(" + s + ")"
    case None => ""
  }

  function IdMatchText(m: IdMatch): string {
    m.name + ":" + m.marker + IdSpaceText(m.idSpace)
  }

  /** `t` is matched by the identifier grammar with the groups of `m`. */
  ghost predicate IdDescribes(t: string, m: IdMatch) {
    WellFormedIdMatch(m) && IdMatchText(m) <= t && IsDollarTail(t[|IdMatchText(m)|..])
  }

  /** `(ID|START_ID|END_ID)`, alternatives tried in order; no two share a first letter, so at most one applies. */
  function MatchMarker(rest: string): (r: Option<string>)
    ensures r.Some? ==> IsIdMarker(r.value) && r.value <= rest
  {
    if ID_FIELD <= rest then Some(ID_FIELD)
    else if START_ID_FIELD <= rest then Some(START_ID_FIELD)
    else if END_ID_FIELD <= rest then Some(END_ID_FIELD)
    else None
  }

  /** `(\(([-a-zA-Z]+)\))?` up to the end of the text. */
  function MatchIdSpace(s: string): (r: Option<Option<string>>)
    ensures r.Some? && r.value.Some? ==> IsIdentWord(r.value.value)
  {
    if s == "" then Some(None)
    else if 2 < |s| && s[0] == '(' && s[|s| - 1] == ')' && All(s[1..|s| - 1], IsIdentChar) then Some(Some(s[1..|s| - 1]))
    else None
  }

  /** Matcher.find for the identifier grammar. */
  function MatchIdentifier(t: string): (r: Option<IdMatch>)
    ensures r.Some? ==> WellFormedIdMatch(r.value)
  {
    MatchIdCore(BeforeDollar(t))
  }

  function MatchIdCore(core: string): (r: Option<IdMatch>)
    ensures r.Some? ==> WellFormedIdMatch(r.value)
  {
    match IndexOf(core, ':')
    case None => None
    case Some(colon) =>
      if !All(core[..colon], IsIdentChar) then None
      else
        var rest := core[colon + 1..];
        match MatchMarker(rest)
        case None => None
        case Some(marker) =>
          match MatchIdSpace(rest[|marker|..])
          case None => None
          case Some(sp) => Some(IdMatch(core[..colon], marker, sp))
  }

  lemma MatchIdSpaceSound(s: string)
    requires MatchIdSpace(s).Some?
    ensures IdSpaceText(MatchIdSpace(s).value) == s
  {
    if s != "" {
      assert s == "(" + s[1..|s| - 1] + ")";
    }
  }

  lemma MatchIdCoreSound(core: string)
    requires MatchIdCore(core).Some?
    ensures IdMatchText(MatchIdCore(core).value) == core
  {
    var colon := IndexOf(core, ':').value;
    var rest := core[colon + 1..];
    var marker := MatchMarker(rest).value;
    var s := rest[|marker|..];
    MatchIdSpaceSound(s);
    var m := MatchIdCore(core).value;
    assert m == IdMatch(core[..colon], marker, MatchIdSpace(s).value);
    Reassemble(core, colon, marker);
  }

  /** A text cut at a colon followed by a known prefix is the parts put back together. */
  lemma Reassemble(core: string, colon: nat, marker: string)
    requires colon < |core| && core[colon] == ':' && marker <= core[colon + 1..]
    ensures core == core[..colon] + ":" + marker + core[colon + 1..][|marker|..]
  {
    var rest := core[colon + 1..];
    assert rest == marker + rest[|marker|..];
    assert core == core[..colon] + [core[colon]] + rest;
  }

  lemma MatchIdentifierSound(t: string)
    requires MatchIdentifier(t).Some?
    ensures IdDescribes(t, MatchIdentifier(t).value)
  {
    MatchIdCoreSound(BeforeDollar(t));
  }

  lemma MatchIdSpaceComplete(o: Option<string>)
    requires o.Some? ==> IsIdentWord(o.value)
    ensures MatchIdSpace(IdSpaceText(o)) == Some(o)
  {
    if o.Some? {
      var s := IdSpaceText(o);
      assert s[1..|s| - 1] == o.value;
    }
  }

  lemma MatchIdCoreComplete(m: IdMatch)
    requires WellFormedIdMatch(m)
    ensures MatchIdCore(IdMatchText(m)) == Some(m)
  {
    var x := IdMatchText(m);
    var tail := IdSpaceText(m.idSpace);
    var rest := m.marker + tail;
    assert x == m.name + ":" + rest;
    assert x[|m.name|] == ':';
    assert x[..|m.name|] == m.name;
    assert forall j :: 0 <= j < |m.name| ==> x[j] != ':' by {
      forall j | 0 <= j < |m.name| ensures x[j] != ':' {
        assert x[j] == m.name[j] && IsIdentChar(m.name[j]);
      }
    }
    IndexOfFirst(x, ':', |m.name|);
    assert x[|m.name| + 1..] == rest;
    MatchMarkerOf(m.marker, tail);
    assert rest[|m.marker|..] == tail;
    MatchIdSpaceComplete(m.idSpace);
  }

  /** The alternatives start with different letters, so the written marker is the one found. */
  lemma MatchMarkerOf(marker: string, tail: string)
    requires IsIdMarker(marker)
    ensures MatchMarker(marker + tail) == Some(marker)
  {
    var rest := marker + tail;
    assert rest[..|marker|] == marker;
    assert rest[0] == marker[0];
    if marker != ID_FIELD {
      assert !(ID_FIELD <= rest) by {
        assert ID_FIELD[0] != rest[0];
      }
    }
    if marker == END_ID_FIELD {
      assert !(START_ID_FIELD <= rest) by {
        assert START_ID_FIELD[0] != rest[0];
      }
    }
  }

  lemma MatchIdentifierComplete(t: string, m: IdMatch)
    requires IdDescribes(t, m)
    ensures MatchIdentifier(t) == Some(m)
  {
    var x := IdMatchText(m);
    assert x[|x| - 1] == ')' || x[|x| - 1] == 'D' by {
      if m.idSpace.None? {
        assert x[|x| - 1] == m.marker[|m.marker| - 1];
      }
    }
    assert t == x + t[|x|..];
    BeforeDollarOf(x, t[|x|..]);
    MatchIdCoreComplete(m);
  }

  // ---------------------------------------------------------------- plain grammar

  /** A match of the plain grammar: group 1, group 3 (None when absent) and whether group 4 took part. */
  datatype PlainMatch = PlainMatch(name: string, fieldType: Option<string>, isArray: bool)

  predicate WellFormedPlainMatch(p: PlainMatch) {
    IsIdentWord(p.name) && (p.fieldType.Some? ==> IsIdentWord(p.fieldType.value)) && (p.isArray ==> p.fieldType.Some?)
  }

  function PlainMatchText(p: PlainMatch): string {
    p.name + TypePartText(p)
  }

  /** `t` is matched by the plain grammar with the groups of `p`. */
  ghost predicate PlainDescribes(t: string, p: PlainMatch) {
    WellFormedPlainMatch(p) && PlainMatchText(p) <= t && IsDollarTail(t[|PlainMatchText(p)|..])
  }

  /** `(:([-a-zA-Z]+)(\[\])?)?` up to the end of the text. */
  function MatchTypePart(rest: string): (r: Option<PlainMatch>)
  {
    if rest == "" then Some(PlainMatch("", None, false))
    else if rest[0] != ':' then None
    else
      var after := rest[1..];
      var j := Span(after, IsIdentChar);
      if j == 0 then None
      else if after[j..] == "" then Some(PlainMatch("", Some(after), false))
      else if after[j..] == ARRAY_PATTERN then Some(PlainMatch("", Some(after[..j]), true))
      else None
  }

  /** Matcher.find for the plain grammar. */
  function MatchPlain(t: string): (r: Option<PlainMatch>)
    ensures r.Some? ==> WellFormedPlainMatch(r.value)
  {
    MatchPlainCore(BeforeDollar(t))
  }

  function MatchPlainCore(core: string): (r: Option<PlainMatch>)
    ensures r.Some? ==> WellFormedPlainMatch(r.value)
  {
    var k := Span(core, IsIdentChar);
    if k == 0 then None
    else
      match MatchTypePart(core[k..])
      case None => None
      case Some(p) => Some(p.(name := core[..k]))
  }

  /** The text after the name: nothing, or `:type` with an optional `[]`. */
  function TypePartText(p: PlainMatch): string {
    match p.fieldType
    case None => ""
    case Some(ty) => ":" + ty + (if p.isArray then ARRAY_PATTERN else "")
  }

  lemma MatchTypePartSound(rest: string)
    requires MatchTypePart(rest).Some?
    ensures TypePartText(MatchTypePart(rest).value) == rest
    ensures MatchTypePart(rest).value.name == ""
  {
    if rest != "" {
      var after := rest[1..];
      var j := Span(after, IsIdentChar);
      if after[j..] == ARRAY_PATTERN {
        assert after == after[..j] + ARRAY_PATTERN;
      }
      assert rest == ":" + after;
    }
  }

  lemma MatchTypePartComplete(p: PlainMatch)
    requires WellFormedPlainMatch(p)
    ensures MatchTypePart(TypePartText(p)) == Some(p.(name := ""))
  {
    if p.fieldType.Some? {
      var ty := p.fieldType.value;
      var arr := if p.isArray then ARRAY_PATTERN else "";
      var rest := TypePartText(p);
      assert rest == ":" + (ty + arr);
      assert rest[1..] == ty + arr;
      assert arr == [] || !IsIdentChar(arr[0]);
      SpanOf(ty, arr, IsIdentChar);
      assert (ty + arr)[..|ty|] == ty;
      assert (ty + arr)[|ty|..] == arr;
      if !p.isArray {
        assert ty + arr == ty;
      }
    }
  }

  lemma MatchPlainCoreSound(core: string)
    requires MatchPlainCore(core).Some?
    ensures PlainMatchText(MatchPlainCore(core).value) == core
  {
    var k := Span(core, IsIdentChar);
    var q := MatchTypePart(core[k..]).value;
    MatchTypePartSound(core[k..]);
    var p := MatchPlainCore(core).value;
    assert p == q.(name := core[..k]);
    assert PlainMatchText(p) == core[..k] + TypePartText(q);
    assert core == core[..k] + core[k..];
  }

  lemma MatchPlainSound(t: string)
    requires MatchPlain(t).Some?
    ensures PlainDescribes(t, MatchPlain(t).value)
  {
    MatchPlainCoreSound(BeforeDollar(t));
  }

  lemma MatchPlainCoreComplete(p: PlainMatch)
    requires WellFormedPlainMatch(p)
    ensures MatchPlainCore(PlainMatchText(p)) == Some(p)
  {
    var x := PlainMatchText(p);
    var rest := TypePartText(p);
    assert x == p.name + rest;
    assert rest == [] || rest[0] == ':';
    SpanOf(p.name, rest, IsIdentChar);
    assert x[..|p.name|] == p.name;
    assert x[|p.name|..] == rest;
    MatchTypePartComplete(p);
  }

  lemma MatchPlainComplete(t: string, p: PlainMatch)
    requires PlainDescribes(t, p)
    ensures MatchPlain(t) == Some(p)
  {
    var x := PlainMatchText(p);
    assert x[|x| - 1] == ']' || IsIdentChar(x[|x| - 1]) by {
      if p.fieldType.None? {
        assert x == p.name;
      } else if !p.isArray {
        assert x == p.name + ":" + p.fieldType.value;
      }
    }
    assert t == x + t[|x|..];
    BeforeDollarOf(x, t[|x|..]);
    MatchPlainCoreComplete(p);
  }

  // ---------------------------------------------------------------- from

  /** `toUpperCase().endsWith(":IGNORE")`. */
  predicate IsIgnored(text: string) {
    EndsWith(ToUpper(text), ":" + IGNORE_FIELD)
  }

  /** A dotless i upper-cases to I, so `x:ıgnore` counts as ignored. */
  lemma DotlessIgnored(t: string)
    requires t == "x:\U{0131}gnore"
    ensures IsIgnored(t)
  {
    assert ToUpper(t)[1..] == ":IGNORE";
  }

  /**
   * The two grammars on the quote-free text, identifier first. An identifier
   * field is named by Constants.getPostfix of its id space, which is a
   * parameter here.
   */
  function MatchGrammars(index: int, cleaned: string, attribute: string, postfix: Option<string> -> string): (r: Result<Option<CsvField>, FieldError>)
    ensures r.Success? ==> r.value.Some? && r.value.value.index == index
    ensures r.Failure? ==> r.error == NotWellFormed(attribute)
  {
    match MatchIdentifier(cleaned)
    case Some(m) => Success(Some(CsvField(index, postfix(m.idSpace), m.marker, false, m.idSpace)))
    case None =>
      match MatchPlain(cleaned)
      case Some(p) => Success(Some(CsvField(index, p.name, p.fieldType.GetOr("STRING"), p.isArray, None)))
      case None => Failure(NotWellFormed(attribute))
  }

  /** CsvField.from as written: the IGNORE rule looks at the attribute before quotation marks are removed. */
  function FromAsWritten(index: int, attribute: string, quotationCharacter: char, postfix: Option<string> -> string): (r: Result<Option<CsvField>, FieldError>)
    ensures r == Success(None) <==> IsIgnored(attribute)
    ensures r.Success? && r.value.Some? ==> r.value.value.index == index
    ensures r.Failure? ==> r.error == NotWellFormed(attribute)
  {
    if IsIgnored(attribute) then Success(None)
    else MatchGrammars(index, RemoveChar(attribute, quotationCharacter), attribute, postfix)
  }

  /** CsvField.from with the IGNORE rule applied to the quote-free attribute, like both grammars. */
  function From(index: int, attribute: string, quotationCharacter: char, postfix: Option<string> -> string): (r: Result<Option<CsvField>, FieldError>)
    ensures r == Success(None) <==> IsIgnored(RemoveChar(attribute, quotationCharacter))
    ensures r.Success? && r.value.Some? ==> r.value.value.index == index
    ensures r.Failure? ==> r.error == NotWellFormed(attribute)
  {
    var cleaned := RemoveChar(attribute, quotationCharacter);
    if IsIgnored(cleaned) then Success(None)
    else MatchGrammars(index, cleaned, attribute, postfix)
  }

  /** A text the identifier grammar accepts gives an identifier field: type = marker, name from the id space, never an array. */
  lemma FromIdentifier(index: int, attribute: string, quotationCharacter: char, postfix: Option<string> -> string, m: IdMatch)
    requires !IsIgnored(RemoveChar(attribute, quotationCharacter))
    requires IdDescribes(RemoveChar(attribute, quotationCharacter), m)
    ensures From(index, attribute, quotationCharacter, postfix)
         == Success(Some(CsvField(index, postfix(m.idSpace), m.marker, false, m.idSpace)))
  {
    MatchIdentifierComplete(RemoveChar(attribute, quotationCharacter), m);
  }

  /**
   * A text only the plain grammar accepts gives a plain field: type STRING
   * when none is written, an array exactly when `[]` is, no id space.
   */
  lemma FromPlain(index: int, attribute: string, quotationCharacter: char, postfix: Option<string> -> string, p: PlainMatch)
    requires !IsIgnored(RemoveChar(attribute, quotationCharacter))
    requires forall m :: !IdDescribes(RemoveChar(attribute, quotationCharacter), m)
    requires PlainDescribes(RemoveChar(attribute, quotationCharacter), p)
    ensures From(index, attribute, quotationCharacter, postfix)
         == Success(Some(CsvField(index, p.name, p.fieldType.GetOr("STRING"), p.isArray, None)))
  {
    var cleaned := RemoveChar(attribute, quotationCharacter);
    if MatchIdentifier(cleaned).Some? {
      MatchIdentifierSound(cleaned);
      assert false;
    }
    MatchPlainComplete(cleaned, p);
  }

  /** From fails exactly when the attribute is not ignored and neither grammar accepts it. */
  lemma FromMalformed(index: int, attribute: string, quotationCharacter: char, postfix: Option<string> -> string)
    ensures From(index, attribute, quotationCharacter, postfix).Failure?
        <==> && !IsIgnored(RemoveChar(attribute, quotationCharacter))
             && (forall m :: !IdDescribes(RemoveChar(attribute, quotationCharacter), m))
             && (forall p :: !PlainDescribes(RemoveChar(attribute, quotationCharacter), p))
  {
    var cleaned := RemoveChar(attribute, quotationCharacter);
    IdentifierNone(cleaned);
    PlainNone(cleaned);
  }

  lemma IdentifierNone(t: string)
    ensures MatchIdentifier(t).None? <==> forall m :: !IdDescribes(t, m)
  {
    if MatchIdentifier(t).Some? {
      MatchIdentifierSound(t);
    } else {
      forall m | IdDescribes(t, m) ensures false {
        MatchIdentifierComplete(t, m);
      }
    }
  }

  lemma PlainNone(t: string)
    ensures MatchPlain(t).None? <==> forall p :: !PlainDescribes(t, p)
  {
    if MatchPlain(t).Some? {
      MatchPlainSound(t);
    } else {
      forall p | PlainDescribes(t, p) ensures false {
        MatchPlainComplete(t, p);
      }
    }
  }

  /**
   * `x:ID` is accepted by both grammars (as the plain field named x of
   * type ID too), and the identifier reading wins.
   */
  lemma IdentifierPrecedence(index: int, name: string, quotationCharacter: char, postfix: Option<string> -> string)
    requires IsIdentWord(name) && !IsIdentChar(quotationCharacter) && quotationCharacter != ':'
    ensures PlainDescribes(name + ":ID", PlainMatch(name, Some("ID"), false))
    ensures From(index, name + ":ID", quotationCharacter, postfix) == Success(Some(CsvField(index, postfix(None), ID_FIELD, false, None)))
  {
    BothGrammars(name, quotationCharacter);
    FromIdentifier(index, name + ":ID", quotationCharacter, postfix, IdMatch(name, ID_FIELD, None));
  }

  lemma BothGrammars(name: string, quotationCharacter: char)
    requires IsIdentWord(name) && !IsIdentChar(quotationCharacter) && quotationCharacter != ':'
    ensures RemoveChar(name + ":ID", quotationCharacter) == name + ":ID"
    ensures !IsIgnored(name + ":ID")
    ensures IdDescribes(name + ":ID", IdMatch(name, ID_FIELD, None))
    ensures PlainDescribes(name + ":ID", PlainMatch(name, Some("ID"), false))
  {
    var attribute := name + ":ID";
    var m := IdMatch(name, ID_FIELD, None);
    assert IdMatchText(m) == attribute;
    var p := PlainMatch(name, Some("ID"), false);
    assert PlainMatchText(p) == attribute;
    assert attribute[|attribute|..] == [];
    assert quotationCharacter !in attribute by {
      forall j | 0 <= j < |attribute| ensures attribute[j] != quotationCharacter {
        if j < |name| {
          assert attribute[j] == name[j];
        }
      }
    }
    NotIgnoredIdentifier(m);
  }

  /** An identifier attribute never ends in `:IGNORE`: it ends in `)` or in the last letter of a marker. */
  lemma NotIgnoredIdentifier(m: IdMatch)
    requires WellFormedIdMatch(m)
    ensures !IsIgnored(IdMatchText(m))
  {
    var x := IdMatchText(m);
    if m.idSpace.None? {
      assert x[|x| - 1] == 'D';
      assert ToUpper(x)[|x| - 1] == 'D';
    } else {
      assert x[|x| - 1] == ')';
      assert ToUpper(x)[|x| - 1] == ')';
    }
  }

  /** Deleting the quotation characters first changes nothing but the attribute quoted in an error. */
  lemma FromQuoteFree(index: int, attribute: string, quotationCharacter: char, postfix: Option<string> -> string)
    ensures From(index, RemoveChar(attribute, quotationCharacter), quotationCharacter, postfix).Failure?
        <==> From(index, attribute, quotationCharacter, postfix).Failure?
    ensures From(index, attribute, quotationCharacter, postfix).Success? ==>
      From(index, RemoveChar(attribute, quotationCharacter), quotationCharacter, postfix) == From(index, attribute, quotationCharacter, postfix)
  {
    var cleaned := RemoveChar(attribute, quotationCharacter);
    assert RemoveChar(cleaned, quotationCharacter) == cleaned;
    FromSteps(index, attribute, quotationCharacter, postfix);
    FromSteps(index, cleaned, quotationCharacter, postfix);
    ErrorTextOnly(index, cleaned, attribute, cleaned, postfix);
  }

  /** Helper: From is the IGNORE rule followed by the grammars on the quote-free text. */
  lemma FromSteps(index: int, attribute: string, quotationCharacter: char, postfix: Option<string> -> string)
    ensures From(index, attribute, quotationCharacter, postfix)
         == if IsIgnored(RemoveChar(attribute, quotationCharacter)) then Success(None)
            else MatchGrammars(index, RemoveChar(attribute, quotationCharacter), attribute, postfix)
  {
  }

  /** The raw attribute only shows in the error. */
  lemma ErrorTextOnly(index: int, cleaned: string, a1: string, a2: string, postfix: Option<string> -> string)
    ensures MatchGrammars(index, cleaned, a1, postfix).Failure? <==> MatchGrammars(index, cleaned, a2, postfix).Failure?
    ensures MatchGrammars(index, cleaned, a1, postfix).Success? ==>
      MatchGrammars(index, cleaned, a1, postfix) == MatchGrammars(index, cleaned, a2, postfix)
  {
  }

  /**
   * Whenever removing the quotation characters does not change whether the
   * attribute ends in `:IGNORE`, the code as written and the corrected rule
   * give the same result, so every lemma about From carries over.
   */
  lemma FromAsWrittenAgrees(index: int, attribute: string, quotationCharacter: char, postfix: Option<string> -> string)
    requires IsIgnored(attribute) == IsIgnored(RemoveChar(attribute, quotationCharacter))
    ensures FromAsWritten(index, attribute, quotationCharacter, postfix) == From(index, attribute, quotationCharacter, postfix)
  {
    FromSteps(index, attribute, quotationCharacter, postfix);
  }

  /** On an attribute without quotation characters the code as written and the corrected rule agree. */
  lemma FromAgrees(index: int, attribute: string, quotationCharacter: char, postfix: Option<string> -> string)
    requires quotationCharacter !in attribute
    ensures FromAsWritten(index, attribute, quotationCharacter, postfix) == From(index, attribute, quotationCharacter, postfix)
  {
    assert RemoveChar(attribute, quotationCharacter) == attribute;
    FromAsWrittenAgrees(index, attribute, quotationCharacter, postfix);
  }

  /**
   * The code as written fails exactly when the raw attribute does not end in
   * `:IGNORE` and neither grammar accepts the quote-free text.
   */
  lemma FromAsWrittenMalformed(index: int, attribute: string, quotationCharacter: char, postfix: Option<string> -> string)
    ensures FromAsWritten(index, attribute, quotationCharacter, postfix).Failure?
        <==> !IsIgnored(attribute) && Unreadable(RemoveChar(attribute, quotationCharacter))
  {
    var cleaned := RemoveChar(attribute, quotationCharacter);
    var r := FromAsWritten(index, attribute, quotationCharacter, postfix);
    if IsIgnored(attribute) {
      assert r == Success(None);
    } else {
      assert r == MatchGrammars(index, cleaned, attribute, postfix);
      GrammarsFail(index, cleaned, attribute, postfix);
    }
  }

  /** Neither grammar has a reading of the text. */
  ghost predicate Unreadable(t: string) {
    (forall m :: !IdDescribes(t, m)) && (forall p :: !PlainDescribes(t, p))
  }

  /** The grammars fail exactly when neither has a reading of the text. */
  lemma GrammarsFail(index: int, cleaned: string, attribute: string, postfix: Option<string> -> string)
    ensures MatchGrammars(index, cleaned, attribute, postfix).Failure? <==> Unreadable(cleaned)
  {
    IdentifierNone(cleaned);
    PlainNone(cleaned);
  }

  /**
   * As written, an attribute the raw IGNORE test passes over is read by the
   * grammars even when its quote-free text ends in `:IGNORE`: an identifier
   * reading gives an identifier field and a plain reading a plain field.
   */
  lemma FromAsWrittenFields(index: int, attribute: string, quotationCharacter: char, postfix: Option<string> -> string)
    requires !IsIgnored(attribute)
    ensures forall m :: IdDescribes(RemoveChar(attribute, quotationCharacter), m) ==>
      FromAsWritten(index, attribute, quotationCharacter, postfix)
        == Success(Some(CsvField(index, postfix(m.idSpace), m.marker, false, m.idSpace)))
    ensures forall p ::
      ((forall m :: !IdDescribes(RemoveChar(attribute, quotationCharacter), m)) && PlainDescribes(RemoveChar(attribute, quotationCharacter), p))
      ==> (FromAsWritten(index, attribute, quotationCharacter, postfix)
           == Success(Some(CsvField(index, p.name, p.fieldType.GetOr("STRING"), p.isArray, None))))
  {
    var cleaned := RemoveChar(attribute, quotationCharacter);
    forall m | IdDescribes(cleaned, m)
      ensures FromAsWritten(index, attribute, quotationCharacter, postfix)
           == Success(Some(CsvField(index, postfix(m.idSpace), m.marker, false, m.idSpace)))
    {
      MatchIdentifierComplete(cleaned, m);
    }
    forall p | (forall m :: !IdDescribes(cleaned, m)) && PlainDescribes(cleaned, p)
      ensures FromAsWritten(index, attribute, quotationCharacter, postfix)
           == Success(Some(CsvField(index, p.name, p.fieldType.GetOr("STRING"), p.isArray, None)))
    {
      IdentifierNone(cleaned);
      MatchPlainComplete(cleaned, p);
    }
  }

  /**
   * A quoted ignored column, `"x:IGNORE"`: as written it is not dropped but
   * parsed as a plain field of type IGNORE; the corrected rule drops it.
   */
  lemma QuotedIgnore(attribute: string, postfix: Option<string> -> string)
    requires attribute == "\"x:IGNORE\""
    ensures FromAsWritten(0, attribute, '"', postfix) == Success(Some(CsvField(0, "x", "IGNORE", false, None)))
    ensures From(0, attribute, '"', postfix) == Success(None)
  {
    var cleaned := QuotedIgnoreFacts(attribute);
    MatchPlainComplete(cleaned, PlainMatch("x", Some("IGNORE"), false));
  }

  lemma QuotedIgnoreFacts(attribute: string) returns (cleaned: string)
    requires attribute == "\"x:IGNORE\""
    ensures cleaned == RemoveChar(attribute, '"') && cleaned == "x:IGNORE"
    ensures IsIgnored(cleaned) && !IsIgnored(attribute)
    ensures MatchIdentifier(cleaned).None?
    ensures PlainDescribes(cleaned, PlainMatch("x", Some("IGNORE"), false))
  {
    cleaned := "x:IGNORE";
    QuotesRemoved(attribute, cleaned);
    IgnoredText(cleaned);
    PlainText(cleaned);
    NotIdentifierText(cleaned);
  }

  lemma QuotesRemoved(attribute: string, cleaned: string)
    requires attribute == "\"x:IGNORE\"" && cleaned == "x:IGNORE"
    ensures RemoveChar(attribute, '"') == cleaned && !IsIgnored(attribute)
  {
    var quote := "\"";
    assert attribute == quote + (cleaned + quote);
    assert RemoveChar(quote, '"') == [] by {
      assert quote[1..] == [];
    }
    assert '"' !in cleaned;
    RemoveCharConcat(quote, cleaned + quote, '"');
    RemoveCharConcat(cleaned, quote, '"');
    assert ToUpper(attribute)[|attribute| - 1] == '"';
  }

  lemma IgnoredText(t: string)
    requires t == "x:IGNORE"
    ensures IsIgnored(t)
  {
    assert ToUpper(t)[1..] == ":IGNORE";
  }

  lemma PlainText(t: string)
    requires t == "x:IGNORE"
    ensures PlainDescribes(t, PlainMatch("x", Some("IGNORE"), false))
  {
    assert PlainMatchText(PlainMatch("x", Some("IGNORE"), false)) == t;
    assert t[|t|..] == [];
  }

  lemma NotIdentifierText(t: string)
    requires t == "x:IGNORE"
    ensures MatchIdentifier(t).None?
  {
    assert BeforeDollar(t) == t;
    IndexOfFirst(t, ':', 1);
    var rest := t[2..];
    assert rest[0] == 'I' && rest[1] == 'G';
    assert !(ID_FIELD <= rest) by { assert ID_FIELD[1] == 'D'; }
    assert !(START_ID_FIELD <= rest) by { assert START_ID_FIELD[0] == 'S'; }
    assert !(END_ID_FIELD <= rest) by { assert END_ID_FIELD[0] == 'E'; }
  }
}
