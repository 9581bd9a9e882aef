/**
 * CsvHeaderField: one attribute of a header such as `name:Type(IDSPACE)[]`,
 * parsed with FIELD_PATTERN into an immutable record.
 */
module HeaderField {
  import opened Wrappers
  import opened JavaText
  import opened Constants

  /** The parsed attribute; `idSpace` None stands for Java's null. */
  datatype CsvHeaderField = CsvHeaderField(index: int, name: string, fieldType: string, isArray: bool, idSpace: Option<string>)

  /**
   * After a failed Matcher.find, Matcher.group throws IllegalStateException;
   * extractGroup only catches IllegalArgumentException, so parse fails.
   */
  datatype ParseError = NoMatchFound

  /** A LABEL or TYPE column: it describes the graph element rather than a property. */
  predicate IsMeta(f: CsvHeaderField) {
    f.fieldType == LABEL_FIELD || f.fieldType == TYPE_FIELD
  }

  /**
   * CsvHeaderField.parse: delete every quotation character, match
   * FIELD_PATTERN, and take name, type and id space from its groups; the
   * field is an array when the array group took part or the type is LABEL.
   */
  function Parse(index: int, attribute: string, quotationCharacter: char): (r: Result<CsvHeaderField, ParseError>)
    ensures r.Success? ==> r.value.index == index
    ensures r.Success? ==> quotationCharacter !in r.value.name && quotationCharacter !in r.value.fieldType
    ensures r.Success? ==> |r.value.fieldType| > 0 && All(r.value.fieldType, IsWordChar) && ':' !in r.value.name
    ensures r.Success? && r.value.idSpace.Some? ==> |r.value.idSpace.value| > 0 && All(r.value.idSpace.value, IsWordChar)
    ensures r.Success? && r.value.fieldType == LABEL_FIELD ==> r.value.isArray
  {
    var attributeCleaned := RemoveChar(attribute, quotationCharacter);
    match MatchFieldPattern(attributeCleaned)
    case None => Failure(NoMatchFound)
    case Some(m) =>
      MatchFieldPatternSound(attributeCleaned);
      QuoteFreeGroups(attributeCleaned, m, quotationCharacter);
      var isLabels := "LABEL" == m.fieldtype;
      var isArray := m.arrayGroup == Some(ARRAY_PATTERN) || isLabels;
      Success(CsvHeaderField(index, m.name, m.fieldtype, isArray, m.idspace))
  }

  /** The groups of a match are pieces of the matched text, so a character the text lacks is in none of them. */
  lemma QuoteFreeGroups(t: string, m: FieldMatch, q: char)
    requires FieldPatternDescribes(t, m) && q !in t
    ensures q !in m.name && q !in m.fieldtype
  {
    var x := FieldMatchText(m);
    assert x == m.name + ":" + m.fieldtype + SuffixText(Suffix(m.idspace, m.arrayGroup));
    assert t[..|x|] == x;
    forall j | 0 <= j < |m.name| ensures m.name[j] != q {
      assert m.name[j] == t[j];
    }
    forall j | 0 <= j < |m.fieldtype| ensures m.fieldtype[j] != q {
      assert m.fieldtype[j] == t[|m.name| + 1 + j];
    }
  }

  /**
   * Parse in terms of the pattern: a text FIELD_PATTERN matches with groups
   * `m` parses to exactly those groups, with `isArray` set by the array group
   * or by the LABEL type.
   */
  lemma ParseMatched(index: int, attribute: string, quotationCharacter: char, m: FieldMatch)
    requires FieldPatternDescribes(RemoveChar(attribute, quotationCharacter), m)
    ensures Parse(index, attribute, quotationCharacter)
         == Success(CsvHeaderField(index, m.name, m.fieldtype, m.arrayGroup.Some? || m.fieldtype == LABEL_FIELD, m.idspace))
  {
    MatchFieldPatternComplete(RemoveChar(attribute, quotationCharacter), m);
  }

  /** Parse fails exactly when FIELD_PATTERN matches the quote-free text in no way at all. */
  lemma ParseFails(index: int, attribute: string, quotationCharacter: char)
    ensures Parse(index, attribute, quotationCharacter).Failure?
        <==> forall m :: !FieldPatternDescribes(RemoveChar(attribute, quotationCharacter), m)
  {
    ParseFailsOnNoMatch(index, attribute, quotationCharacter);
    MatchFieldPatternNone(RemoveChar(attribute, quotationCharacter));
  }

  /** Helper: Parse fails exactly when the recogniser finds nothing. */
  lemma ParseFailsOnNoMatch(index: int, attribute: string, quotationCharacter: char)
    ensures Parse(index, attribute, quotationCharacter).Failure? <==> MatchFieldPattern(RemoveChar(attribute, quotationCharacter)).None?
  {
  }

  /** The first attribute of the field tests: type, id space and the array marker. */
  lemma ParseArrayExample(attribute: string)
    requires attribute == "name:Type(IDSPACE)[]"
    ensures Parse(0, attribute, '"') == Success(CsvHeaderField(0, "name", "Type", true, Some("IDSPACE")))
  {
    var m := FieldMatch("name", "Type", Some("IDSPACE"), Some("[]"));
    assert '"' !in attribute && WellFormedFieldMatch(m) && FieldMatchText(m) == attribute;
    ExampleMatch(0, attribute, m);
  }

  /** The second attribute of the field tests: without the array marker the field is not an array. */
  lemma ParseScalarExample(attribute: string)
    requires attribute == "name:Type(IDSPACE)"
    ensures Parse(0, attribute, '"') == Success(CsvHeaderField(0, "name", "Type", false, Some("IDSPACE")))
  {
    var m := FieldMatch("name", "Type", Some("IDSPACE"), None);
    assert '"' !in attribute && WellFormedFieldMatch(m) && FieldMatchText(m) == attribute;
    ExampleMatch(0, attribute, m);
  }

  /** An attribute without quotation marks that spells out the groups of `m` exactly. */
  lemma ExampleMatch(index: int, attribute: string, m: FieldMatch)
    requires '"' !in attribute && WellFormedFieldMatch(m) && FieldMatchText(m) == attribute
    ensures Parse(index, attribute, '"')
         == Success(CsvHeaderField(index, m.name, m.fieldtype, m.arrayGroup.Some? || m.fieldtype == LABEL_FIELD, m.idspace))
  {
    assert attribute[|FieldMatchText(m)|..] == [];
    ParseMatched(index, attribute, '"', m);
  }

  /** `:LABEL` is an array without `[]`, and a meta column. */
  lemma LabelExample(labels: string)
    requires labels == ":LABEL"
    ensures Parse(3, labels, '"') == Success(CsvHeaderField(3, "", "LABEL", true, None))
    ensures IsMeta(Parse(3, labels, '"').value)
  {
    var m := LabelMatch(labels);
    ExampleMatch(3, labels, m);
  }

  /** The groups `:LABEL` is matched with: an empty name and the type LABEL. */
  lemma LabelMatch(labels: string) returns (m: FieldMatch)
    requires labels == ":LABEL"
    ensures m == FieldMatch("", "LABEL", None, None)
    ensures '"' !in labels && WellFormedFieldMatch(m) && FieldMatchText(m) == labels
  {
    m := FieldMatch("", "LABEL", None, None);
    assert All(m.fieldtype, IsWordChar) by {
      forall i | 0 <= i < |m.fieldtype| ensures IsWordChar(m.fieldtype[i]) {
        assert 'A' <= m.fieldtype[i] <= 'Z';
      }
    }
    assert SuffixText(Suffix(None, None)) == "";
    assert FieldMatchText(m) == "" + ":" + "LABEL" + "";
    assert forall i :: 0 <= i < |labels| ==> labels[i] != '"';
  }

  /** A plain name without a colon, as in a header that gives no types, does not parse. */
  lemma PlainNameExample(plain: string)
    requires plain == "name"
    ensures Parse(3, plain, '"') == Failure(NoMatchFound)
  {
    assert ':' !in plain by {
      assert forall i :: 0 <= i < |plain| ==> plain[i] != ':';
    }
    NoColon(3, plain, '"');
  }

  /**
   * An attribute without a colon never parses, whatever the quotation character:
   * the pattern needs a colon after the name, and quote removal only deletes characters.
   */
  lemma NoColon(index: int, attribute: string, quotationCharacter: char)
    requires ':' !in attribute
    ensures Parse(index, attribute, quotationCharacter) == Failure(NoMatchFound)
  {
    var cleaned := RemoveChar(attribute, quotationCharacter);
    if quotationCharacter != ':' {
      assert multiset(cleaned)[':'] == multiset(attribute)[':'] == 0;
    }
    assert ':' !in cleaned;
    ParseFailsOnNoMatch(index, attribute, quotationCharacter);
  }
}
