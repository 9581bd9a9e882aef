/**
 * CsvHeaderToCypherConverter: from a header and a configuration to the text
 * of a Cypher `LOAD CSV ... WITH ... CREATE ...` query, for nodes and for
 * relationships. Every name the generator emits is quoted in backticks;
 * the lemmas read those names back (QuotedText) to show which field
 * identifiers, labels and id-space keys the query binds and uses.
 */
module Converter {
  import opened Wrappers
  import opened JavaText
  import opened Constants
  import opened HeaderField
  import opened HeaderFields
  import opened LoaderConfig
  import opened QuotedText

  // ---------------------------------------------------------------- conversion templates

  /** A format string with one `%s`: the text before it and the text after it. */
  datatype Template = Template(before: string, after: string)

  /** String.format(template, arg): the argument stands where `%s` stood. */
  function Format(t: Template, arg: string): string {
    t.before + arg + t.after
  }

  /** `toInt(%s)` */
  const TO_INT := Template("toInt(", ")")
  /** `toFloat(%s)` */
  const TO_FLOAT := Template("toFloat(", ")")
  /** `CASE toUpper(%s) WHEN 'TRUE' THEN true WHEN 'FALSE' THEN false END` */
  const TO_BOOLEAN := Template("CASE toUpper(", WHEN_TRUE + WHEN_FALSE)
  /** The CASE expression after its argument, in two halves: the TRUE arm and the FALSE arm with END. */
  const WHEN_TRUE := ") WHEN 'TRUE' THEN true"
  const WHEN_FALSE := " WHEN 'FALSE' THEN false END"
  /** `%s` */
  const IDENTITY := Template("", "")

  /** The CONVERTERS table: import-tool property types and the Cypher expression that converts an entry. */
  const CONVERTERS: map<string, Template> := map[
    "INT" := TO_INT,
    "LONG" := TO_INT,
    "FLOAT" := TO_FLOAT,
    "DOUBLE" := TO_FLOAT,
    "BOOLEAN" := TO_BOOLEAN,
    "BYTE" := TO_INT,
    "SHORT" := TO_INT,
    "CHAR" := IDENTITY,
    "STRING" := IDENTITY,
    "ID" := TO_INT]

  const INTEGER_TYPES: set<string> := {"INT", "LONG", "BYTE", "SHORT", "ID"}
  const FLOAT_TYPES: set<string> := {"FLOAT", "DOUBLE"}

  /**
   * `CONVERTERS.getOrDefault(type, "%s")`: integer types convert with
   * toInt, floating types with toFloat, BOOLEAN with the CASE expression,
   * and every other type (CHAR, STRING, and also START_ID, END_ID, LABEL,
   * TYPE or an unknown name) is taken as it is.
   */
  function ConverterFor(fieldType: string): (t: Template)
    ensures t == TO_INT <==> fieldType in INTEGER_TYPES
    ensures t == TO_FLOAT <==> fieldType in FLOAT_TYPES
    ensures t == TO_BOOLEAN <==> fieldType == "BOOLEAN"
    ensures t == IDENTITY <==> fieldType !in INTEGER_TYPES && fieldType !in FLOAT_TYPES && fieldType != "BOOLEAN"
    ensures BACKTICK !in t.before && BACKTICK !in t.after
  {
    TemplatesUnquoted();
    if fieldType in CONVERTERS then CONVERTERS[fieldType] else IDENTITY
  }

  /** No conversion template holds a backtick, so converting never disturbs the generator's quoting. */
  lemma TemplatesUnquoted()
    ensures BACKTICK !in TO_INT.before && BACKTICK !in TO_INT.after
    ensures BACKTICK !in TO_FLOAT.before && BACKTICK !in TO_FLOAT.after
    ensures BACKTICK !in TO_BOOLEAN.before && BACKTICK !in TO_BOOLEAN.after
    ensures BACKTICK !in IDENTITY.before && BACKTICK !in IDENTITY.after
  {
    BooleanUnquoted(WHEN_TRUE, WHEN_FALSE);
  }

  lemma BooleanUnquoted(whenTrue: string, whenFalse: string)
    requires whenTrue == WHEN_TRUE && whenFalse == WHEN_FALSE
    ensures BACKTICK !in whenTrue + whenFalse
  {
    assert BACKTICK !in whenTrue;
    assert BACKTICK !in whenFalse;
  }

  // ---------------------------------------------------------------- the WITH clause

  /** `line[<index>]`: the entry of the current row at the field's position. */
  function LineEntry(index: int): (r: string)
    ensures BACKTICK !in r
  {
    NumberUnquoted(index);
    LINE_VAR + "[" + IntToString(index) + "]"
  }

  /** The row entry names the field's position: the digits between the brackets read back as the index. */
  lemma LineEntryIndex(index: nat)
    ensures var r := LineEntry(index);
      |r| >= 6 && r[..5] == "line[" && r[|r| - 1] == ']'
      && All(r[5..|r| - 1], IsDigit) && DecimalValue(r[5..|r| - 1]) == index
  {
    var r := LineEntry(index);
    assert r == "line[" + IntToString(index) + "]";
    assert r[5..|r| - 1] == IntToString(index);
  }

  /** The name a field is bound and stored under: `__csv_id` for an ID field, its own name otherwise. */
  function Identifier(f: CsvHeaderField): string {
    if f.fieldType == ID_FIELD then IDSPACE_ATTR_PREFIX else f.name
  }

  /** The identifiers of the fields, in field order. */
  function Identifiers(fields: seq<CsvHeaderField>): (ids: seq<string>)
    ensures |ids| == |fields|
    ensures forall i :: 0 <= i < |fields| ==> ids[i] == Identifier(fields[i])
  {
    if fields == [] then [] else [Identifier(fields[0])] + Identifiers(fields[1..])
  }

  /**
   * The converted value of a field: the template applied to its row entry,
   * or, for an array field, a list comprehension applying the template to
   * each element of the entry.
   */
  function Projection(f: CsvHeaderField): (r: string)
    ensures BACKTICK !in r
  {
    var converter := ConverterFor(f.fieldType);
    var lineEntry := LineEntry(f.index);
    ProjectionUnquoted(converter, lineEntry);
    if f.isArray then
      "[property IN " + lineEntry + " | " + Format(converter, "property") + "]"
    else
      Format(converter, lineEntry)
  }

  /** Both shapes of a projection stay free of backticks when the template and the row entry are. */
  lemma ProjectionUnquoted(t: Template, lineEntry: string)
    requires BACKTICK !in t.before && BACKTICK !in t.after && BACKTICK !in lineEntry
    ensures BACKTICK !in Format(t, lineEntry)
    ensures BACKTICK !in "[property IN " + lineEntry + " | " + Format(t, "property") + "]"
  {
    Unquoted3(t.before, lineEntry, t.after);
    Unquoted3(t.before, "property", t.after);
    var open := "[property IN " + lineEntry;
    Unquoted3("[property IN ", lineEntry, "");
    assert "[property IN " + lineEntry + "" == open;
    Unquoted3(open, " | ", Format(t, "property"));
    Unquoted3(open + " | " + Format(t, "property"), "]", "");
    assert open + " | " + Format(t, "property") + "]" + "" == open + " | " + Format(t, "property") + "]";
  }

  /**
   * The conversion of `arg` by type, written out per type family: toInt for
   * the integer types, toFloat for the floating types, the CASE expression
   * for BOOLEAN, and the argument itself for every other type.
   */
  function Converted(fieldType: string, arg: string): string {
    if fieldType in INTEGER_TYPES then "toInt(" + arg + ")"
    else if fieldType in FLOAT_TYPES then "toFloat(" + arg + ")"
    else if fieldType == "BOOLEAN" then "CASE toUpper(" + arg + WHEN_TRUE + WHEN_FALSE
    else arg
  }

  /**
   * The projection of any field: a scalar field converts its row entry, an
   * array field applies the conversion to each element of its row entry.
   */
  lemma ProjectionByType(f: CsvHeaderField)
    ensures !f.isArray ==> Projection(f) == Converted(f.fieldType, LineEntry(f.index))
    ensures f.isArray ==> Projection(f) == "[property IN " + LineEntry(f.index) + " | " + Converted(f.fieldType, "property") + "]"
  {
    ConvertedByTable(f.fieldType, LineEntry(f.index));
    ConvertedByTable(f.fieldType, "property");
  }

  /** Filling the template CONVERTERS gives for a type is the conversion written out for that type. */
  lemma ConvertedByTable(fieldType: string, arg: string)
    ensures Format(ConverterFor(fieldType), arg) == Converted(fieldType, arg)
  {
    var t := ConverterFor(fieldType);
    if t == TO_BOOLEAN {
      BooleanTemplate(arg);
    } else if t == IDENTITY {
      assert Format(t, arg) == arg;
    }
  }

  lemma BooleanTemplate(arg: string)
    ensures Format(TO_BOOLEAN, arg) == "CASE toUpper(" + arg + WHEN_TRUE + WHEN_FALSE
  {
    assert "CASE toUpper(" + arg + (WHEN_TRUE + WHEN_FALSE) == "CASE toUpper(" + arg + WHEN_TRUE + WHEN_FALSE;
  }

  /**
   * Projections of the converter tests' columns: a LONG column converts its
   * entry with toInt, a STRING[] column maps each element unchanged, and a
   * BOOLEAN[] column maps each element through the CASE expression.
   */
  lemma ProjectionExamples(id: CsvHeaderField, languages: CsvHeaderField, bools: CsvHeaderField)
    requires id == CsvHeaderField(1, "id", "LONG", false, None)
    requires languages == CsvHeaderField(1, "languages", "STRING", true, None)
    requires bools == CsvHeaderField(3, "bools", "BOOLEAN", true, None)
    ensures Projection(id) == "toInt(line[1])"
    ensures Projection(languages) == "[property IN line[1] | property]"
    ensures Projection(bools) == "[property IN line[3] | " + Format(TO_BOOLEAN, "property") + "]"
  {
    assert IntToString(1) == "1";
    assert IntToString(3) == "3";
  }

  /** One entry of the WITH clause: `  <projection> AS `<identifier>``. */
  function WithEntry(f: CsvHeaderField): string {
    WithBinding(f) + Quote(Identifier(f))
  }

  /** The entry up to the quoted identifier: `  <projection> AS `. */
  function WithBinding(f: CsvHeaderField): (r: string)
    ensures BACKTICK !in r
  {
    "  " + Projection(f) + " AS "
  }

  function WithEntries(fields: seq<CsvHeaderField>): (es: seq<string>)
    ensures |es| == |fields|
    ensures forall i :: 0 <= i < |fields| ==> es[i] == WithEntry(fields[i])
  {
    if fields == [] then [] else [WithEntry(fields[0])] + WithEntries(fields[1..])
  }

  /** withPropertiesClause: `WITH`, the entries joined by `,` and a line break, then a line break. */
  function WithPropertiesClause(fields: seq<CsvHeaderField>): string {
    "WITH\n" + Join(WithEntries(fields), ",\n") + "\n"
  }

  /** No field name or id space holds a backtick, so the generator's quoting stays well-formed. */
  predicate Quotable(fields: seq<CsvHeaderField>) {
    forall i :: 0 <= i < |fields| ==> BACKTICK !in fields[i].name && (fields[i].idSpace.Some? ==> BACKTICK !in fields[i].idSpace.value)
  }

  /** The joined WITH entries quote exactly the identifiers, in field order. */
  lemma WithEntriesRead(fields: seq<CsvHeaderField>, rest: string)
    requires Quotable(fields)
    ensures QuotedNames(Join(WithEntries(fields), ",\n") + rest) == Identifiers(fields) + QuotedNames(rest)
  {
    var ps := WithEntriesShape(fields);
    JoinedEntriesRead(WithEntries(fields), ps, Identifiers(fields), ",\n", rest);
  }

  /** Each WITH entry is backtick-free text followed by the quoted identifier. */
  lemma WithEntriesShape(fields: seq<CsvHeaderField>) returns (ps: seq<string>)
    requires Quotable(fields)
    ensures |ps| == |fields|
    ensures forall i :: 0 <= i < |fields| ==>
      WithEntries(fields)[i] == ps[i] + Quote(Identifiers(fields)[i]) && BACKTICK !in ps[i] && BACKTICK !in Identifiers(fields)[i]
  {
    ps := seq(|fields|, i requires 0 <= i < |fields| => WithBinding(fields[i]));
    forall i | 0 <= i < |fields|
      ensures WithEntries(fields)[i] == ps[i] + Quote(Identifiers(fields)[i]) && BACKTICK !in ps[i] && BACKTICK !in Identifiers(fields)[i]
    {
      EntryShape(fields[i]);
    }
  }

  lemma EntryShape(f: CsvHeaderField)
    requires BACKTICK !in f.name
    ensures WithEntry(f) == WithBinding(f) + Quote(Identifier(f)) && BACKTICK !in WithBinding(f) && BACKTICK !in Identifier(f)
  {
  }

  /** The WITH clause binds exactly the identifiers of the fields, in field order. */
  lemma WithClauseRead(fields: seq<CsvHeaderField>, rest: string)
    requires Quotable(fields)
    ensures QuotedNames(WithPropertiesClause(fields) + rest) == Identifiers(fields) + QuotedNames(rest)
  {
    WithEntriesRead(fields, "\n" + rest);
    ReadFramed("WITH\n", Join(WithEntries(fields), ",\n"), "\n", rest, Identifiers(fields));
  }

  // ---------------------------------------------------------------- the property map

  /** `` `n`: `n` ``: the property keyed by an identifier takes the value bound under it. */
  function PropertyEntry(n: string): string {
    Quote(n) + ": " + Quote(n)
  }

  function PropertyEntries(fields: seq<CsvHeaderField>): (es: seq<string>)
    ensures |es| == |fields|
    ensures forall i :: 0 <= i < |fields| ==> es[i] == PropertyEntry(Identifier(fields[i]))
  {
    if fields == [] then [] else [PropertyEntry(Identifier(fields[0]))] + PropertyEntries(fields[1..])
  }

  /**
   * cypherProperties: the entries joined by `, ` in braces, or nothing at
   * all when the joined text is empty, which happens for no fields only.
   */
  function CypherProperties(fields: seq<CsvHeaderField>): (r: string)
    ensures r == "" <==> fields == []
    ensures r != "" ==> r[0] == '{' && r[|r| - 1] == '}'
  {
    var joined := Join(PropertyEntries(fields), ", ");
    JoinedPropertiesEmpty(fields);
    if joined == "" then "" else "{" + joined + "}"
  }

  lemma JoinedPropertiesEmpty(fields: seq<CsvHeaderField>)
    ensures Join(PropertyEntries(fields), ", ") == "" <==> fields == []
  {
    var es := PropertyEntries(fields);
    if fields != [] {
      assert |es[0]| >= 1;
      assert Join(es, ", ")[..|es[0]|] == es[0];
    }
  }

  /** Each identifier twice in a row, the way the property map mentions it. */
  function Doubled(ids: seq<string>): (r: seq<string>)
    ensures |r| == 2 * |ids|
    ensures forall i :: 0 <= i < |ids| ==> r[2 * i] == ids[i] && r[2 * i + 1] == ids[i]
  {
    if ids == [] then [] else [ids[0], ids[0]] + Doubled(ids[1..])
  }

  lemma PropertyEntryRead(n: string, rest: string)
    requires BACKTICK !in n
    ensures QuotedNames(PropertyEntry(n) + rest) == [n, n] + QuotedNames(rest)
  {
    assert PropertyEntry(n) + rest == Quote(n) + (": " + Quote(n) + rest);
    ReadQuote(n, ": " + Quote(n) + rest);
    ReadAround(": ", n, rest);
  }

  lemma {:induction false} PropertyEntriesRead(fields: seq<CsvHeaderField>, rest: string)
    requires Quotable(fields)
    ensures QuotedNames(Join(PropertyEntries(fields), ", ") + rest) == Doubled(Identifiers(fields)) + QuotedNames(rest)
  {
    var es := PropertyEntries(fields);
    if |fields| == 0 {
      assert Join(es, ", ") + rest == rest;
    } else {
      var n := Identifier(fields[0]);
      DoubledCons(fields);
      if |fields| == 1 {
        assert Doubled(Identifiers(fields[1..])) == [];
        PropertyEntryRead(n, rest);
      } else {
        assert es[1..] == PropertyEntries(fields[1..]);
        JoinCons(es, ", ", rest);
        PropertyEntriesRead(fields[1..], rest);
        ReadPropertyCons(n, ", ", Join(es[1..], ", "), rest, Doubled(Identifiers(fields[1..])));
      }
    }
  }

  /** The identifiers of some fields, doubled: the first one twice, then the rest doubled. */
  lemma DoubledCons(fields: seq<CsvHeaderField>)
    requires fields != []
    ensures Doubled(Identifiers(fields)) == [Identifier(fields[0]), Identifier(fields[0])] + Doubled(Identifiers(fields[1..]))
  {
    assert Identifiers(fields) == [Identifier(fields[0])] + Identifiers(fields[1..]);
    assert Identifiers(fields)[1..] == Identifiers(fields[1..]);
  }

  /** One property entry, a backtick-free separator and a reading of the rest of the map. */
  lemma ReadPropertyCons(n: string, sep: string, joined: string, rest: string, ns: seq<string>)
    requires BACKTICK !in n && BACKTICK !in sep
    requires QuotedNames(joined + rest) == ns + QuotedNames(rest)
    ensures QuotedNames(PropertyEntry(n) + (sep + (joined + rest))) == [n, n] + ns + QuotedNames(rest)
  {
    PropertyEntryRead(n, sep + (joined + rest));
    ReadPlain(sep, joined + rest);
    NamesAssoc([n, n], ns, QuotedNames(rest));
  }

  /** The property map keys every field's identifier by itself, in field order: each name twice. */
  lemma PropertiesRead(fields: seq<CsvHeaderField>, rest: string)
    requires Quotable(fields)
    ensures QuotedNames(CypherProperties(fields) + rest) == Doubled(Identifiers(fields)) + QuotedNames(rest)
  {
    if fields == [] {
      assert CypherProperties(fields) + rest == rest;
    } else {
      PropertyEntriesRead(fields, "}" + rest);
      ReadFramed("{", Join(PropertyEntries(fields), ", "), "}", rest, Doubled(Identifiers(fields)));
    }
  }

  /**
   * The property map uses exactly the names the WITH clause binds: every
   * quoted name in the map is bound, and every bound name is stored.
   */
  lemma PropertiesAreBound(fields: seq<CsvHeaderField>)
    requires Quotable(fields)
    ensures forall n :: n in QuotedNames(CypherProperties(fields)) <==> n in QuotedNames(WithPropertiesClause(fields))
  {
    PropertiesRead(fields, "");
    assert CypherProperties(fields) + "" == CypherProperties(fields);
    WithClauseRead(fields, "");
    assert WithPropertiesClause(fields) + "" == WithPropertiesClause(fields);
    assert QuotedNames("") == [];
    DoubledMembers(Identifiers(fields));
  }

  lemma DoubledMembers(ids: seq<string>)
    ensures forall n :: n in Doubled(ids) <==> n in ids
  {
    var d := Doubled(ids);
    forall n | n in d ensures n in ids {
      var k :| 0 <= k < |d| && d[k] == n;
      if k % 2 == 0 {
        assert d[2 * (k / 2)] == ids[k / 2];
      } else {
        assert d[2 * (k / 2) + 1] == ids[k / 2];
      }
    }
    forall n | n in ids ensures n in d {
      var i :| 0 <= i < |ids| && ids[i] == n;
      assert d[2 * i] == n;
    }
  }

  // ---------------------------------------------------------------- labels

  /** An ID field that names its id space. */
  predicate HasIdSpace(f: CsvHeaderField) {
    f.fieldType == ID_FIELD && f.idSpace.Some?
  }

  /** Position of the first field satisfying `p` (a stream's `filter(p).findFirst()`). */
  function FirstIndex(fields: seq<CsvHeaderField>, p: CsvHeaderField -> bool): (r: Option<nat>)
    ensures r.None? <==> forall i :: 0 <= i < |fields| ==> !p(fields[i])
    ensures r.Some? ==> r.value < |fields| && p(fields[r.value]) && forall j :: 0 <= j < r.value ==> !p(fields[j])
  {
    if fields == [] then None
    else if p(fields[0]) then Some(0)
    else match FirstIndex(fields[1..], p)
      case None => None
      case Some(k) => Some(k + 1)
  }

  /**
   * The extra label of a node: `IdSpace` followed by the id space of the
   * first ID field that has one; none when no ID field has one.
   */
  function IdSpaceLabel(fields: seq<CsvHeaderField>): (r: Option<string>)
    ensures r.None? <==> forall i :: 0 <= i < |fields| ==> !HasIdSpace(fields[i])
    ensures r.Some? ==> exists k :: FirstIdSpaceAt(fields, k) && r.value == IDSPACE_LABEL_PREFIX + fields[k].idSpace.value
  {
    match FirstIndex(fields, HasIdSpace)
    case None => None
    case Some(k) => Some(IDSPACE_LABEL_PREFIX + fields[k].idSpace.value)
  }

  /** Field `k` is the first ID field with an id space. */
  predicate FirstIdSpaceAt(fields: seq<CsvHeaderField>, k: int) {
    0 <= k < |fields| && HasIdSpace(fields[k]) && forall j :: 0 <= j < k ==> !HasIdSpace(fields[j])
  }

  /** The labels a node gets: the given ones in their order, then the id-space label if there is one. */
  function AllLabels(labels: seq<string>, fields: seq<CsvHeaderField>): (r: seq<string>)
    ensures |r| == |labels| + 1 <==> IdSpaceLabel(fields).Some?
    ensures |r| == |labels| <==> IdSpaceLabel(fields).None?
    ensures |r| >= |labels| && r[..|labels|] == labels
    ensures IdSpaceLabel(fields).Some? ==> r[|labels|] == IdSpaceLabel(fields).value
  {
    match IdSpaceLabel(fields)
    case Some(l) => labels + [l]
    case None => labels
  }

  /** Each label as `` :`l` ``, concatenated. */
  function LabelsText(labels: seq<string>): string {
    if labels == [] then "" else ":" + Quote(labels[0]) + LabelsText(labels[1..])
  }

  /** Reading back a label list gives the labels: rendering loses nothing. */
  lemma {:induction false} LabelsRead(labels: seq<string>, rest: string)
    requires forall i :: 0 <= i < |labels| ==> BACKTICK !in labels[i]
    ensures QuotedNames(LabelsText(labels) + rest) == labels + QuotedNames(rest)
  {
    if labels == [] {
      assert LabelsText(labels) + rest == rest;
    } else {
      var tail := LabelsText(labels[1..]) + rest;
      assert LabelsText(labels) + rest == ":" + Quote(labels[0]) + tail;
      ReadAround(":", labels[0], tail);
      LabelsRead(labels[1..], rest);
      var after := QuotedNames(rest);
      NamesAssoc([labels[0]], labels[1..], after);
      assert [labels[0]] + labels[1..] == labels;
    }
  }

  /**
   * cypherLabels: copy the caller's labels into a list of its own, add the
   * id-space label to the copy, and render the copy.
   */
  method CypherLabels(labels: seq<string>, fields: seq<CsvHeaderField>) returns (text: string)
    ensures text == LabelsText(AllLabels(labels, fields))
  {
    var mutableLabels := labels;
    var idSpace := IdSpaceLabel(fields);
    if idSpace.Some? {
      mutableLabels := mutableLabels + [idSpace.value];
    }
    text := LabelsText(mutableLabels);
  }

  /** An id-space label is built from a field's id space, so it holds no backtick when the fields are quotable. */
  lemma AllLabelsUnquoted(labels: seq<string>, fields: seq<CsvHeaderField>)
    requires Quotable(fields)
    requires forall i :: 0 <= i < |labels| ==> BACKTICK !in labels[i]
    ensures forall i :: 0 <= i < |AllLabels(labels, fields)| ==> BACKTICK !in AllLabels(labels, fields)[i]
  {
    var all := AllLabels(labels, fields);
    forall i | 0 <= i < |all| ensures BACKTICK !in all[i] {
      if i < |labels| {
        assert all[i] == all[..|labels|][i];
      } else {
        var k :| FirstIdSpaceAt(fields, k) && all[i] == IDSPACE_LABEL_PREFIX + fields[k].idSpace.value;
        assert BACKTICK !in IDSPACE_LABEL_PREFIX;
      }
    }
  }

  // ---------------------------------------------------------------- the node CREATE clause

  /** `CREATE (<labels> <properties>)`, with the space only when both parts are present. */
  function CreateNodeClause(cypherLabels: string, cypherProperties: string): string {
    var cypherOptionalSpace := if cypherLabels != "" && cypherProperties != "" then " " else "";
    "CREATE (" + cypherLabels + cypherOptionalSpace + cypherProperties + ")\n"
  }

  /** The node clause names the labels, in order, and then every identifier twice. */
  lemma NodeClauseRead(labels: seq<string>, fields: seq<CsvHeaderField>)
    requires Quotable(fields)
    requires forall i :: 0 <= i < |labels| ==> BACKTICK !in labels[i]
    ensures QuotedNames(CreateNodeClause(LabelsText(labels), CypherProperties(fields))) == labels + Doubled(Identifiers(fields))
  {
    var l := LabelsText(labels);
    var p := CypherProperties(fields);
    var sp := if l != "" && p != "" then " " else "";
    LabelsRead(labels, sp + (p + ")\n"));
    PropertiesRead(fields, ")\n");
    ReadTwoParts("CREATE (", l, sp, p, ")\n", labels, Doubled(Identifiers(fields)));
  }

  // ---------------------------------------------------------------- the whole query

  /** `LOAD CSV FROM 'file://<filename>' AS line FIELDTERMINATOR '<terminator>'` and a line break. */
  function LoadLine(filename: string, fieldTerminator: char): string {
    "LOAD CSV FROM 'file://" + filename + "' AS " + LINE_VAR + " FIELDTERMINATOR '" + [fieldTerminator] + "'\n"
  }

  /** The clause that passes over the header row of the file. */
  const SKIP_HEADER := "WITH line\nSKIP 1\n"

  /** What createLoadCsvQuery appends, in order, as one text. */
  function LoadCsvQuery(filename: string, fieldTerminator: char, fields: seq<CsvHeaderField>,
                        createGraphElementClause: string, skipHeaders: bool): string
  {
    LoadLine(filename, fieldTerminator) + (if skipHeaders then SKIP_HEADER else "")
      + WithPropertiesClause(fields) + createGraphElementClause
  }

  /**
   * createLoadCsvQuery: a query builder that receives the load line, the
   * header-skipping clause when asked for, the WITH clause and the given
   * CREATE clause, one append after another.
   */
  method CreateLoadCsvQuery(filename: string, fieldTerminator: char, fields: seq<CsvHeaderField>,
                            createGraphElementClause: string, skipHeaders: bool) returns (query: string)
    ensures query == LoadCsvQuery(filename, fieldTerminator, fields, createGraphElementClause, skipHeaders)
  {
    var queryBuilder := "";
    queryBuilder := queryBuilder + LoadLine(filename, fieldTerminator);
    if skipHeaders {
      queryBuilder := queryBuilder + SKIP_HEADER;
    }
    queryBuilder := queryBuilder + WithPropertiesClause(fields);
    queryBuilder := queryBuilder + createGraphElementClause;
    BuilderAppends(LoadLine(filename, fieldTerminator), SKIP_HEADER, skipHeaders, WithPropertiesClause(fields), createGraphElementClause);
    query := queryBuilder;
  }

  /**
   * The query opens with the load line, and right after it comes the
   * header-skipping clause exactly when skipHeaders is set; otherwise the
   * WITH clause follows at once.
   */
  lemma QueryLayout(filename: string, fieldTerminator: char, fields: seq<CsvHeaderField>, clause: string, skipHeaders: bool)
    ensures var q := LoadCsvQuery(filename, fieldTerminator, fields, clause, skipHeaders);
      var load := LoadLine(filename, fieldTerminator);
      load <= q && (SKIP_HEADER <= q[|load|..] <==> skipHeaders)
    ensures var q := LoadCsvQuery(filename, fieldTerminator, fields, clause, skipHeaders);
      |clause| <= |q| && q[|q| - |clause|..] == clause
  {
    WithClauseStart(fields);
    Layout(LoadLine(filename, fieldTerminator), SKIP_HEADER, skipHeaders, WithPropertiesClause(fields), clause);
  }

  /** The WITH clause opens with `WITH` and a line break. */
  lemma WithClauseStart(fields: seq<CsvHeaderField>)
    ensures |WithPropertiesClause(fields)| >= 5 && WithPropertiesClause(fields)[..5] == "WITH\n"
    ensures WithPropertiesClause(fields)[4] == '\n'
  {
    OpensWith("WITH\n", Join(WithEntries(fields), ",\n"), "\n");
  }

  /** A text built as `a + b + c` starts with `a`. */
  lemma OpensWith(a: string, b: string, c: string)
    ensures |a + b + c| >= |a| && (a + b + c)[..|a|] == a
  {
    assert (a + b + c)[..|a|] == a;
  }

  /** Load line, optional clause, a body that differs from that clause at position 4, and a tail: where each part sits. */
  lemma Layout(load: string, skip: string, flag: bool, body: string, tail: string)
    requires |skip| >= 5 && |body| >= 5 && body[4] != skip[4]
    ensures var q := load + (if flag then skip else "") + body + tail;
      load <= q && (skip <= q[|load|..] <==> flag) && |tail| <= |q| && q[|q| - |tail|..] == tail
  {
    var q := load + (if flag then skip else "") + body + tail;
    if flag {
      assert q == load + (skip + body + tail);
      assert q[|load|..] == skip + body + tail;
    } else {
      assert q == load + (body + tail);
      assert q[|load|..] == body + tail;
      assert q[|load|..][4] == body[4];
    }
    assert q == (load + (if flag then skip else "") + body) + tail;
  }

  /** The load line holds no backtick when the file name and the terminator hold none. */
  lemma LoadLineUnquoted(filename: string, fieldTerminator: char)
    requires BACKTICK !in filename && fieldTerminator != BACKTICK
    ensures BACKTICK !in LoadLine(filename, fieldTerminator)
  {
  }

  /** Without backticks in the file name or the terminator, the query names what its WITH clause binds and then what its CREATE clause names. */
  lemma QueryRead(filename: string, fieldTerminator: char, fields: seq<CsvHeaderField>, clause: string, skipHeaders: bool)
    requires BACKTICK !in filename && fieldTerminator != BACKTICK
    requires Quotable(fields)
    ensures QuotedNames(LoadCsvQuery(filename, fieldTerminator, fields, clause, skipHeaders)) == Identifiers(fields) + QuotedNames(clause)
  {
    LoadLineUnquoted(filename, fieldTerminator);
    WithClauseRead(fields, clause);
    ReadAfterPlain(LoadLine(filename, fieldTerminator), if skipHeaders then SKIP_HEADER else "",
      WithPropertiesClause(fields), clause, Identifiers(fields));
  }

  // ---------------------------------------------------------------- convertNodes

  /** convertNodes as a value: the fields of the header, or the parse error that ends the call. */
  function NodesQuery(filename: string, header: string, labels: seq<string>, config: CsvLoaderConfig): Result<string, ParseError> {
    match HeaderFields.ProcessHeader(header, config.fieldTerminator, config.quotationCharacter)
    case Failure(e) => Failure(e)
    case Success(fields) =>
      var clause := CreateNodeClause(LabelsText(AllLabels(labels, fields)), CypherProperties(fields));
      Success(LoadCsvQuery(filename, config.fieldTerminator, fields, clause, config.skipHeaders))
  }

  /** convertNodes: parse the header, render labels and properties, and build the query around the node clause. */
  method ConvertNodes(filename: string, header: string, labels: seq<string>, config: CsvLoaderConfig)
    returns (r: Result<string, ParseError>)
    ensures r == NodesQuery(filename, header, labels, config)
    ensures r.Failure? <==> HeaderFields.ProcessHeader(header, config.fieldTerminator, config.quotationCharacter).Failure?
  {
    match HeaderFields.ProcessHeader(header, config.fieldTerminator, config.quotationCharacter)
    case Failure(e) =>
      r := Failure(e);
    case Success(fields) =>
      var cypherLabels := CypherLabels(labels, fields);
      var cypherProperties := CypherProperties(fields);
      var createNodeClause := CreateNodeClause(cypherLabels, cypherProperties);
      var query := CreateLoadCsvQuery(filename, config.fieldTerminator, fields, createNodeClause, config.skipHeaders);
      r := Success(query);
  }

  /**
   * Reading the names of a node query back: the WITH clause binds every
   * field's identifier, then the node gets the given labels and the
   * id-space label, then every identifier is stored under itself.
   */
  lemma NodesQueryNames(filename: string, header: string, labels: seq<string>, config: CsvLoaderConfig)
    requires NodesQuery(filename, header, labels, config).Success?
    requires BACKTICK !in filename && config.fieldTerminator != BACKTICK
    requires forall i :: 0 <= i < |labels| ==> BACKTICK !in labels[i]
    requires Quotable(HeaderFields.ProcessHeader(header, config.fieldTerminator, config.quotationCharacter).value)
    ensures var fields := HeaderFields.ProcessHeader(header, config.fieldTerminator, config.quotationCharacter).value;
      QuotedNames(NodesQuery(filename, header, labels, config).value)
        == Identifiers(fields) + AllLabels(labels, fields) + Doubled(Identifiers(fields))
  {
    var fields := HeaderFields.ProcessHeader(header, config.fieldTerminator, config.quotationCharacter).value;
    var all := AllLabels(labels, fields);
    var clause := CreateNodeClause(LabelsText(all), CypherProperties(fields));
    AllLabelsUnquoted(labels, fields);
    NodeClauseRead(all, fields);
    QueryRead(filename, config.fieldTerminator, fields, clause, config.skipHeaders);
    NamesAssoc(Identifiers(fields), all, Doubled(Identifiers(fields)));
  }

  // ---------------------------------------------------------------- convertRelationships

  /**
   * The id space of the first field of type `marker`, or `fallback` when
   * there is no such field or that first one names no id space
   * (`filter(...).findFirst().map(getIdSpace).orElse(fallback)`).
   */
  function FirstIdSpaceOf(fields: seq<CsvHeaderField>, marker: string, fallback: string): (r: string)
    ensures (forall i :: 0 <= i < |fields| ==> fields[i].fieldType != marker) ==> r == fallback
    ensures r == fallback || exists k :: 0 <= k < |fields| && fields[k].fieldType == marker && fields[k].idSpace == Some(r)
    ensures forall k :: 0 <= k < |fields| && fields[k].fieldType == marker && (forall j :: 0 <= j < k ==> fields[j].fieldType != marker) ==>
      r == fields[k].idSpace.GetOr(fallback)
  {
    match FirstIndex(fields, (f: CsvHeaderField) => f.fieldType == marker)
    case None => fallback
    case Some(k) => fields[k].idSpace.GetOr(fallback)
  }

  /** The start node's id space; without one the name falls back to END_ID_PROPERTY. */
  function StartIdSpace(fields: seq<CsvHeaderField>): string {
    FirstIdSpaceOf(fields, START_ID_FIELD, END_ID_PROPERTY)
  }

  /** The end node's id space; without one the name falls back to START_ID_PROPERTY. */
  function EndIdSpace(fields: seq<CsvHeaderField>): string {
    FirstIdSpaceOf(fields, END_ID_FIELD, START_ID_PROPERTY)
  }

  /** The key a MATCH pattern looks an endpoint up by: ID_PROPERTY, an underscore and the id space. */
  function EndpointKey(idSpace: string): string {
    ID_PROPERTY + "_" + idSpace
  }

  /**
   * The id spaces of the relationship tests: named spaces are taken from the
   * START_ID and END_ID columns; without them the start space falls back to
   * `__csv_idend_id` and the end space to `__csv_idstart_id`.
   */
  lemma IdSpaceExamples(named: seq<CsvHeaderField>, unnamed: seq<CsvHeaderField>)
    requires named == [CsvHeaderField(0, "", "START_ID", false, Some("Space1")),
                       CsvHeaderField(1, "", "END_ID", false, Some("Space2")),
                       CsvHeaderField(2, "attr", "STRING", false, None)]
    requires unnamed == [CsvHeaderField(0, "", "START_ID", false, None),
                         CsvHeaderField(1, "", "END_ID", false, None),
                         CsvHeaderField(2, "attr", "STRING", false, None)]
    ensures StartIdSpace(named) == "Space1" && EndIdSpace(named) == "Space2"
    ensures StartIdSpace(unnamed) == END_ID_PROPERTY && EndIdSpace(unnamed) == START_ID_PROPERTY
  {
    assert named[0].fieldType == START_ID_FIELD && named[1].fieldType == END_ID_FIELD;
    assert unnamed[0].fieldType == START_ID_FIELD && unnamed[1].fieldType == END_ID_FIELD;
  }

  /** One endpoint of the MATCH: `(<variable> {`<key>`: `<property>`})`, the node whose key equals the row's id. */
  function EndpointPattern(variable: string, idSpace: string, property: string): string {
    "(" + variable + " {" + Quote(EndpointKey(idSpace)) + ": " + Quote(property) + "})"
  }

  /** The relationship's MATCH of both endpoints and its CREATE with the label and properties. */
  function RelationshipClause(startIdSpace: string, endIdSpace: string, relLabel: string, cypherProperties: string): string {
    "MATCH\n  " + EndpointPattern("src", startIdSpace, START_ID_PROPERTY)
      + ",\n  " + EndpointPattern("trg", endIdSpace, END_ID_PROPERTY)
      + "\nCREATE\n  (src)-[:" + Quote(relLabel) + " " + cypherProperties + "]->(trg)\n"
  }

  /** The identifier properties hold no backtick. */
  lemma PropertiesUnquoted()
    ensures BACKTICK !in ID_PROPERTY && BACKTICK !in START_ID_PROPERTY && BACKTICK !in END_ID_PROPERTY
  {
    IdProperties();
  }

  /** An id space drawn from quotable fields, or one of the fallback properties, holds no backtick. */
  lemma IdSpaceUnquoted(fields: seq<CsvHeaderField>, marker: string, fallback: string)
    requires Quotable(fields) && BACKTICK !in fallback
    ensures BACKTICK !in FirstIdSpaceOf(fields, marker, fallback)
  {
    var r := FirstIdSpaceOf(fields, marker, fallback);
    if r != fallback {
      var k :| 0 <= k < |fields| && fields[k].fieldType == marker && fields[k].idSpace == Some(r);
    }
  }

  /** An endpoint pattern names its key and then the property it is matched against. */
  lemma EndpointRead(variable: string, idSpace: string, property: string, rest: string)
    requires BACKTICK !in variable && BACKTICK !in idSpace && BACKTICK !in property
    ensures QuotedNames(EndpointPattern(variable, idSpace, property) + rest) == [EndpointKey(idSpace), property] + QuotedNames(rest)
  {
    PropertiesUnquoted();
    ReadPair("(" + variable + " {", EndpointKey(idSpace), ": ", property, "})", rest);
  }

  /**
   * The relationship clause names the start key and property, the end key
   * and property, the relationship type, and then every identifier twice.
   */
  lemma RelationshipClauseRead(startIdSpace: string, endIdSpace: string, relLabel: string, fields: seq<CsvHeaderField>)
    requires BACKTICK !in startIdSpace && BACKTICK !in endIdSpace && BACKTICK !in relLabel
    requires Quotable(fields)
    ensures QuotedNames(RelationshipClause(startIdSpace, endIdSpace, relLabel, CypherProperties(fields)))
      == [EndpointKey(startIdSpace), START_ID_PROPERTY, EndpointKey(endIdSpace), END_ID_PROPERTY, relLabel] + Doubled(Identifiers(fields))
  {
    PropertiesUnquoted();
    RelationshipTextsUnquoted();
    var src := EndpointPattern("src", startIdSpace, START_ID_PROPERTY);
    var trg := EndpointPattern("trg", endIdSpace, END_ID_PROPERTY);
    var p := CypherProperties(fields);
    var tail := "]->(trg)\n";
    var afterTrg := "\nCREATE\n  (src)-[:" + (Quote(relLabel) + (" " + (p + tail)));
    PropertiesRead(fields, tail);
    EndpointRead("trg", endIdSpace, END_ID_PROPERTY, afterTrg);
    EndpointRead("src", startIdSpace, START_ID_PROPERTY, ",\n  " + (trg + afterTrg));
    ReadClauseShape("MATCH\n  ", src, ",\n  ", trg, "\nCREATE\n  (src)-[:", relLabel, " ", p, tail,
      [EndpointKey(startIdSpace), START_ID_PROPERTY], [EndpointKey(endIdSpace), END_ID_PROPERTY], Doubled(Identifiers(fields)));
    NamesFlat(EndpointKey(startIdSpace), START_ID_PROPERTY, EndpointKey(endIdSpace), END_ID_PROPERTY, relLabel, Doubled(Identifiers(fields)));
  }

  /** The fixed texts of the relationship clause hold no backtick. */
  lemma RelationshipTextsUnquoted()
    ensures BACKTICK !in "MATCH\n  " && BACKTICK !in ",\n  " && BACKTICK !in "\nCREATE\n  (src)-[:"
    ensures BACKTICK !in " " && BACKTICK !in "]->(trg)\n" && BACKTICK !in "src" && BACKTICK !in "trg"
  {
  }

  /** Name lists appended one after another form one list. */
  lemma NamesFlat(k1: string, v1: string, k2: string, v2: string, l: string, ps: seq<string>)
    ensures [k1, v1] + [k2, v2] + [l] + ps == [k1, v1, k2, v2, l] + ps
  {
  }

  /**
   * The shape of the relationship clause, over any texts: two named parts
   * and a quoted name between backtick-free texts, then a named part and a
   * backtick-free end.
   */
  lemma ReadClauseShape(a: string, x: string, c: string, y: string, e: string, l: string, g: string, p: string, i: string,
                        xs: seq<string>, ys: seq<string>, ps: seq<string>)
    requires BACKTICK !in a && BACKTICK !in c && BACKTICK !in e && BACKTICK !in l && BACKTICK !in g && BACKTICK !in i
    requires QuotedNames(x + (c + (y + (e + (Quote(l) + (g + (p + i))))))) == xs + QuotedNames(c + (y + (e + (Quote(l) + (g + (p + i))))))
    requires QuotedNames(y + (e + (Quote(l) + (g + (p + i))))) == ys + QuotedNames(e + (Quote(l) + (g + (p + i))))
    requires QuotedNames(p + i) == ps + QuotedNames(i)
    ensures QuotedNames(a + x + c + y + e + Quote(l) + g + p + i) == xs + ys + [l] + ps
  {
    var t4 := g + (p + i);
    var t3 := Quote(l) + t4;
    var t2 := e + t3;
    var t1 := y + t2;
    var t0 := c + t1;
    ClauseAssoc(a, x, c, y, e, Quote(l), g, p, i);
    ReadPlain(a, x + t0);
    ReadPlain(c, t1);
    ReadPlain(e, t3);
    ReadQuote(l, t4);
    ReadPlain(g, p + i);
    NoNames(i);
    assert xs + (ys + ([l] + (ps + []))) == xs + ys + [l] + ps;
  }

  /** Nine pieces concatenated from the left equal the same pieces concatenated from the right. */
  lemma ClauseAssoc(a: string, b: string, c: string, d: string, e: string, f: string, g: string, h: string, i: string)
    ensures a + b + c + d + e + f + g + h + i == a + (b + (c + (d + (e + (f + (g + (h + i)))))))
  {
  }

  /** convertRelationships as a value. */
  function RelationshipsQuery(filename: string, header: string, relLabel: string, config: CsvLoaderConfig): Result<string, ParseError> {
    match HeaderFields.ProcessHeader(header, config.fieldTerminator, config.quotationCharacter)
    case Failure(e) => Failure(e)
    case Success(fields) =>
      var clause := RelationshipClause(StartIdSpace(fields), EndIdSpace(fields), relLabel, CypherProperties(fields));
      Success(LoadCsvQuery(filename, config.fieldTerminator, fields, clause, config.skipHeaders))
  }

  /** convertRelationships: parse the header, find both id spaces, and build the query around the relationship clause. */
  method ConvertRelationships(filename: string, header: string, relLabel: string, config: CsvLoaderConfig)
    returns (r: Result<string, ParseError>)
    ensures r == RelationshipsQuery(filename, header, relLabel, config)
    ensures r.Failure? <==> HeaderFields.ProcessHeader(header, config.fieldTerminator, config.quotationCharacter).Failure?
  {
    match HeaderFields.ProcessHeader(header, config.fieldTerminator, config.quotationCharacter)
    case Failure(e) =>
      r := Failure(e);
    case Success(fields) =>
      var startIdSpace := StartIdSpace(fields);
      var endIdSpace := EndIdSpace(fields);
      var clause := RelationshipClause(startIdSpace, endIdSpace, relLabel, CypherProperties(fields));
      var query := CreateLoadCsvQuery(filename, config.fieldTerminator, fields, clause, config.skipHeaders);
      r := Success(query);
  }

  /**
   * Reading the names of a relationship query back: the WITH clause binds
   * every field's identifier; the MATCH looks up the start node by the key
   * of the start id space and the end node by the key of the end id space;
   * the relationship gets the given type and stores every identifier under
   * itself.
   */
  lemma RelationshipsQueryNames(filename: string, header: string, relLabel: string, config: CsvLoaderConfig)
    requires RelationshipsQuery(filename, header, relLabel, config).Success?
    requires BACKTICK !in filename && config.fieldTerminator != BACKTICK && BACKTICK !in relLabel
    requires Quotable(HeaderFields.ProcessHeader(header, config.fieldTerminator, config.quotationCharacter).value)
    ensures var fields := HeaderFields.ProcessHeader(header, config.fieldTerminator, config.quotationCharacter).value;
      QuotedNames(RelationshipsQuery(filename, header, relLabel, config).value)
        == Identifiers(fields)
          + [EndpointKey(StartIdSpace(fields)), START_ID_PROPERTY, EndpointKey(EndIdSpace(fields)), END_ID_PROPERTY, relLabel]
          + Doubled(Identifiers(fields))
  {
    var fields := HeaderFields.ProcessHeader(header, config.fieldTerminator, config.quotationCharacter).value;
    PropertiesUnquoted();
    IdSpaceUnquoted(fields, START_ID_FIELD, END_ID_PROPERTY);
    IdSpaceUnquoted(fields, END_ID_FIELD, START_ID_PROPERTY);
    var clause := RelationshipClause(StartIdSpace(fields), EndIdSpace(fields), relLabel, CypherProperties(fields));
    RelationshipClauseRead(StartIdSpace(fields), EndIdSpace(fields), relLabel, fields);
    QueryRead(filename, config.fieldTerminator, fields, clause, config.skipHeaders);
    NamesAssoc(Identifiers(fields),
      [EndpointKey(StartIdSpace(fields)), START_ID_PROPERTY, EndpointKey(EndIdSpace(fields)), END_ID_PROPERTY, relLabel],
      Doubled(Identifiers(fields)));
  }
}
