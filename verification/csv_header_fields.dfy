/**
 * CsvHeaderFields.processHeader: split a header line on the field
 * terminator, taken literally, and parse every piece with its position.
 * A piece that does not parse makes the whole call fail.
 */
module HeaderFields {
  import opened Wrappers
  import opened JavaText
  import opened Constants
  import opened HeaderField

  /** processHeader: String.split on the quoted terminator, then CsvHeaderField.parse on each piece. */
  function ProcessHeader(header: string, fieldTerminator: char, quotationCharacter: char): (r: Result<seq<CsvHeaderField>, ParseError>)
    ensures r.Success? ==> |r.value| == |Split(header, fieldTerminator)|
    ensures r.Success? ==> forall i :: 0 <= i < |r.value| ==> r.value[i].index == i
  {
    ParsePiecesSpec(Split(header, fieldTerminator), 0, quotationCharacter);
    ParsePieces(Split(header, fieldTerminator), 0, quotationCharacter)
  }

  /** The pieces from position `start` on: the i-th one is parsed with index start + i. */
  function ParsePieces(pieces: seq<string>, start: int, quotationCharacter: char): (r: Result<seq<CsvHeaderField>, ParseError>)
    decreases |pieces|
  {
    if pieces == [] then Success([])
    else
      match Parse(start, pieces[0], quotationCharacter)
      case Failure(e) => Failure(e)
      case Success(f) =>
        match ParsePieces(pieces[1..], start + 1, quotationCharacter)
        case Failure(e) => Failure(e)
        case Success(fs) => Success([f] + fs)
  }

  /** Every piece from position `start` on parses at its own index. */
  ghost predicate AllParse(pieces: seq<string>, start: int, quotationCharacter: char) {
    forall i :: 0 <= i < |pieces| ==> Parse(start + i, pieces[i], quotationCharacter).Success?
  }

  /** The pieces succeed together exactly when each parses at its position; then there is one field per piece, numbered from the start. */
  lemma {:induction false} ParsePiecesSpec(pieces: seq<string>, start: int, quotationCharacter: char)
    ensures ParsePieces(pieces, start, quotationCharacter).Success? <==> AllParse(pieces, start, quotationCharacter)
    ensures var r := ParsePieces(pieces, start, quotationCharacter);
      r.Success? ==> |r.value| == |pieces| && forall i :: 0 <= i < |pieces| ==> r.value[i].index == start + i
    decreases |pieces|
  {
    if pieces != [] {
      var p := Parse(start, pieces[0], quotationCharacter);
      var rest := ParsePieces(pieces[1..], start + 1, quotationCharacter);
      ParsePiecesSpec(pieces[1..], start + 1, quotationCharacter);
      ShiftPieces(pieces, start, quotationCharacter);
      if p.Success? && rest.Success? {
        var fs := [p.value] + rest.value;
        assert ParsePieces(pieces, start, quotationCharacter) == Success(fs);
        forall i | 0 <= i < |pieces| ensures fs[i].index == start + i {
          if i > 0 {
            assert fs[i] == rest.value[i - 1];
          }
        }
      }
    }
  }

  /** Every piece parses exactly when the first does and every later one parses one position further on. */
  lemma ShiftPieces(pieces: seq<string>, start: int, quotationCharacter: char)
    requires pieces != []
    ensures AllParse(pieces, start, quotationCharacter)
        <==> Parse(start, pieces[0], quotationCharacter).Success? && AllParse(pieces[1..], start + 1, quotationCharacter)
  {
    if Parse(start, pieces[0], quotationCharacter).Success? && AllParse(pieces[1..], start + 1, quotationCharacter) {
      forall i | 0 <= i < |pieces| ensures Parse(start + i, pieces[i], quotationCharacter).Success? {
        if i > 0 {
          assert pieces[i] == pieces[1..][i - 1];
        }
      }
    }
    if AllParse(pieces, start, quotationCharacter) {
      forall i | 0 <= i < |pieces[1..]| ensures Parse(start + 1 + i, pieces[1..][i], quotationCharacter).Success? {
        assert pieces[1..][i] == pieces[i + 1];
      }
    }
  }

  /** The i-th field is exactly what parse gives for the i-th piece at index start + i. */
  lemma {:induction false} ParsedPieces(pieces: seq<string>, start: int, quotationCharacter: char)
    requires ParsePieces(pieces, start, quotationCharacter).Success?
    ensures |ParsePieces(pieces, start, quotationCharacter).value| == |pieces|
    ensures forall i :: 0 <= i < |pieces| ==>
      (Parse(start + i, pieces[i], quotationCharacter).Success?
       && ParsePieces(pieces, start, quotationCharacter).value[i] == Parse(start + i, pieces[i], quotationCharacter).value)
    decreases |pieces|
  {
    if pieces != [] {
      var p := Parse(start, pieces[0], quotationCharacter);
      var fs := ParsePieces(pieces[1..], start + 1, quotationCharacter);
      assert p.Success? && fs.Success?;
      var r := [p.value] + fs.value;
      assert ParsePieces(pieces, start, quotationCharacter).value == r;
      ParsedPieces(pieces[1..], start + 1, quotationCharacter);
      forall i | 0 <= i < |pieces|
        ensures Parse(start + i, pieces[i], quotationCharacter).Success? && r[i] == Parse(start + i, pieces[i], quotationCharacter).value
      {
        if i > 0 {
          assert pieces[1..][i - 1] == pieces[i] && start + 1 + (i - 1) == start + i;
          assert r[i] == fs.value[i - 1];
        }
      }
    }
  }

  /** An empty header is one empty piece, which has no colon and so never parses. */
  lemma EmptyHeaderFails(fieldTerminator: char, quotationCharacter: char)
    ensures ProcessHeader("", fieldTerminator, quotationCharacter).Failure?
  {
    assert Split("", fieldTerminator) == [""];
    ParseFailsOnNoMatch(0, "", quotationCharacter);
    assert RemoveChar("", quotationCharacter) == "";
    assert IndexOf(BeforeDollar(""), ':') == None;
  }

  /**
   * The only way to get no fields at all: a non-empty header made of
   * terminators only, which String.split turns into no pieces.
   */
  lemma NoFields(header: string, fieldTerminator: char, quotationCharacter: char)
    ensures ProcessHeader(header, fieldTerminator, quotationCharacter) == Success([])
        <==> header != "" && forall i :: 0 <= i < |header| ==> header[i] == fieldTerminator
  {
    SplitEmpty(header, fieldTerminator);
    if header == "" {
      EmptyHeaderFails(fieldTerminator, quotationCharacter);
    }
  }

  /** A terminator at the end of a non-empty header adds no field, because split drops trailing empty pieces. */
  lemma TrailingTerminator(header: string, fieldTerminator: char, quotationCharacter: char)
    requires header != ""
    ensures ProcessHeader(header + [fieldTerminator], fieldTerminator, quotationCharacter)
         == ProcessHeader(header, fieldTerminator, quotationCharacter)
  {
    SplitTrailingSeparator(header, fieldTerminator);
  }
}
