/**
 * FileParserFactory maps a file extension, compared case-insensitively, to
 * the parser for that format. The only format registered is "xlsx".
 */
module Factory {
  import opened Wrappers
  import opened PhpText

  /** The parser classes a factory can hand out. */
  datatype ParserKind = XlsxParserKind

  /** The "Unsupported file type: {extension}" exception, with the extension it names. */
  datatype FactoryError = UnsupportedFileType(extension: string)

  /** The table the constructor registers. */
  const DEFAULT_PARSERS: map<string, ParserKind> := map["xlsx" := XlsxParserKind]

  class FileParserFactory {
    /** Lower-case extension => parser class. */
    const parsers: map<string, ParserKind>

    constructor ()
      ensures parsers == DEFAULT_PARSERS
    {
      parsers := DEFAULT_PARSERS;
    }

    /** supports: whether the lower-cased extension is registered. */
    predicate Supports(fileExtension: string) {
      Lower(fileExtension) in parsers
    }

    /**
     * createParser: the parser registered for the lower-cased extension, or
     * the error naming that lower-cased extension.
     */
    method CreateParser(fileExtension: string) returns (r: Result<ParserKind, FactoryError>)
      ensures r.Success? <==> Supports(fileExtension)
      ensures r.Success? ==> r.value == parsers[Lower(fileExtension)]
      ensures r.Failure? ==> r.error == UnsupportedFileType(Lower(fileExtension))
    {
      var extension := Lower(fileExtension);
      if !Supports(extension) {
        LowerIdempotent(fileExtension);
        return Failure(UnsupportedFileType(extension));
      }
      LowerIdempotent(fileExtension);
      return Success(parsers[extension]);
    }
  }

  /** Support does not depend on letter case. */
  lemma SupportsIgnoresCase(f: FileParserFactory, fileExtension: string)
    ensures f.Supports(fileExtension) == f.Supports(Lower(fileExtension))
  {
    LowerIdempotent(fileExtension);
  }

  /** A freshly built factory supports exactly the extensions that lower-case to "xlsx". */
  lemma DefaultSupportsXlsxOnly(f: FileParserFactory, fileExtension: string)
    requires f.parsers == DEFAULT_PARSERS
    ensures f.Supports(fileExtension) <==> Lower(fileExtension) == "xlsx"
    ensures f.Supports(fileExtension) ==> f.parsers[Lower(fileExtension)] == XlsxParserKind
  {
  }

  /** "XLSX" and "Xlsx" are accepted; "xls" and "csv" are not. */
  lemma DefaultExamples(f: FileParserFactory)
    requires f.parsers == DEFAULT_PARSERS
    ensures f.Supports("XLSX") && f.Supports("Xlsx")
    ensures !f.Supports("xls") && !f.Supports("csv")
  {
    assert Lower("XLSX") == "xlsx";
    assert Lower("Xlsx") == "xlsx";
    assert Lower("xls") != "xlsx" by {
      assert |Lower("xls")| == 3;
    }
    assert Lower("csv") != "xlsx" by {
      assert |Lower("csv")| == 3;
    }
  }
}
