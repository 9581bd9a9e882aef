/**
 * CsvLoaderConfig: the immutable settings of one load, after the import
 * tool's command-line options, and the Builder whose chained setters
 * overwrite its fields before `build` copies them out.
 */
module LoaderConfig {

  /**
   * The built configuration; its fields are only read. `skipHeaders` is
   * the flag the converter reads through isSkipHeaders.
   */
  datatype CsvLoaderConfig = CsvLoaderConfig(
    fieldTerminator: char,
    arrayDelimiter: char,
    quotationCharacter: char,
    stringIds: bool,
    skipHeaders: bool)

  const DEFAULT_FIELD_TERMINATOR: char := ','
  const DEFAULT_ARRAY_DELIMITER: char := ';'
  const DEFAULT_QUOTATION_CHARACTER: char := '"'
  const DEFAULT_STRING_IDS: bool := true
  const DEFAULT_SKIP_HEADERS: bool := true

  class Builder {
    var fieldTerminator: char
    var arrayDelimiter: char
    var quotationCharacter: char
    var stringIds: bool
    var skipHeaders: bool

    /** No setter touches the quotation character, so it keeps its default for the builder's whole life. */
    ghost predicate Valid()
      reads this
    {
      quotationCharacter == DEFAULT_QUOTATION_CHARACTER
    }

    /** The current settings, as `build` would copy them. */
    function Settings(): (c: CsvLoaderConfig)
      reads this
      ensures Valid() ==> c.quotationCharacter == DEFAULT_QUOTATION_CHARACTER
    {
      CsvLoaderConfig(fieldTerminator, arrayDelimiter, quotationCharacter, stringIds, skipHeaders)
    }

    /** CsvLoaderConfig.builder(): a fresh builder holding the defaults. */
    constructor ()
      ensures Valid()
      ensures Settings() == CsvLoaderConfig(DEFAULT_FIELD_TERMINATOR, DEFAULT_ARRAY_DELIMITER,
        DEFAULT_QUOTATION_CHARACTER, DEFAULT_STRING_IDS, DEFAULT_SKIP_HEADERS)
    {
      fieldTerminator := DEFAULT_FIELD_TERMINATOR;
      arrayDelimiter := DEFAULT_ARRAY_DELIMITER;
      quotationCharacter := DEFAULT_QUOTATION_CHARACTER;
      stringIds := DEFAULT_STRING_IDS;
      skipHeaders := DEFAULT_SKIP_HEADERS;
    }

    method SetFieldTerminator(c: char) returns (b: Builder)
      requires Valid()
      modifies this
      ensures b == this && Valid()
      ensures Settings() == old(Settings()).(fieldTerminator := c)
    {
      fieldTerminator := c;
      b := this;
    }

    method SetArrayDelimiter(c: char) returns (b: Builder)
      requires Valid()
      modifies this
      ensures b == this && Valid()
      ensures Settings() == old(Settings()).(arrayDelimiter := c)
    {
      arrayDelimiter := c;
      b := this;
    }

    method SetStringIds(flag: bool) returns (b: Builder)
      requires Valid()
      modifies this
      ensures b == this && Valid()
      ensures Settings() == old(Settings()).(stringIds := flag)
    {
      stringIds := flag;
      b := this;
    }

    method SetSkipHeaders(flag: bool) returns (b: Builder)
      requires Valid()
      modifies this
      ensures b == this && Valid()
      ensures Settings() == old(Settings()).(skipHeaders := flag)
    {
      skipHeaders := flag;
      b := this;
    }

    /** build(): the builder's values, copied unchanged; the builder itself is left as it was. */
    method Build() returns (config: CsvLoaderConfig)
      requires Valid()
      ensures config == Settings()
      ensures config.quotationCharacter == DEFAULT_QUOTATION_CHARACTER
    {
      config := CsvLoaderConfig(fieldTerminator, arrayDelimiter, quotationCharacter, stringIds, skipHeaders);
    }
  }

  /** The configuration of the converter tests: `builder().fieldTerminator('|').build()`. */
  method PipeSeparatedConfig() returns (config: CsvLoaderConfig)
    ensures config == CsvLoaderConfig('|', DEFAULT_ARRAY_DELIMITER, DEFAULT_QUOTATION_CHARACTER, DEFAULT_STRING_IDS, DEFAULT_SKIP_HEADERS)
  {
    var builder := new Builder();
    var same := builder.SetFieldTerminator('|');
    config := same.Build();
  }
}
