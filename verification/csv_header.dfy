/**
 * CsvHeader.processHeader: split the header on the field terminator, taken
 * literally, turn each piece into a CsvField with its raw position, and
 * leave out the ignored pieces without renumbering the others. The first
 * malformed piece aborts the whole call with its error.
 *
 * The stream pipeline has two stages, and so does the model: Entries is the
 * `mapToObj` of CsvField.from, as written, over the pieces, Present is the
 * `flatMap` that keeps the present values (and stops at the first exception).
 * CorrectedHeader is the same pipeline over the corrected CsvField.from,
 * whose IGNORE test looks at the quote-free piece.
 */
module Header {
  import opened Wrappers
  import opened JavaText
  import opened Field

  type Entry = Result<Option<CsvField>, FieldError>

  /** processHeader. */
  function ProcessHeader(header: string, fieldTerminator: char, quotationCharacter: char, postfix: Option<string> -> string)
    : (r: Result<seq<CsvField>, FieldError>)
    ensures r.Success? ==> |r.value| <= |Split(header, fieldTerminator)|
    ensures r.Success? ==> forall i :: 0 <= i < |r.value| ==> 0 <= r.value[i].index < |Split(header, fieldTerminator)|
    ensures r.Success? ==> forall i, j :: 0 <= i < j < |r.value| ==> r.value[i].index < r.value[j].index
  {
    var entries := Entries(Split(header, fieldTerminator), quotationCharacter, postfix);
    PresentIndices(entries, 0);
    Present(entries)
  }

  /** `mapToObj(i -> CsvField.from(i, attributes.get(i), quotationCharacter))`. */
  function Entries(pieces: seq<string>, quotationCharacter: char, postfix: Option<string> -> string): (es: seq<Entry>)
    ensures |es| == |pieces|
    ensures forall i :: 0 <= i < |pieces| ==> es[i] == FromAsWritten(i, pieces[i], quotationCharacter, postfix)
  {
    seq(|pieces|, i requires 0 <= i < |pieces| => FromAsWritten(i, pieces[i], quotationCharacter, postfix))
  }

  /** The entries, in order, keep their index: entry i, when present, is a field with index start + i. */
  ghost predicate Indexed(entries: seq<Entry>, start: int) {
    forall i :: 0 <= i < |entries| && entries[i].Success? && entries[i].value.Some? ==> entries[i].value.value.index == start + i
  }

  /** `flatMap` over the optional entries; the first failing entry ends the stream with its exception. */
  function Present(entries: seq<Entry>): (r: Result<seq<CsvField>, FieldError>)
    ensures r.Success? <==> forall i :: 0 <= i < |entries| ==> entries[i].Success?
    ensures r.Success? ==> |r.value| <= |entries|
  {
    if entries == [] then Success([])
    else
      match entries[0]
      case Failure(e) => Failure(e)
      case Success(entry) =>
        match Present(entries[1..])
        case Failure(e) => Failure(e)
        case Success(fs) =>
          match entry
          case Some(f) => Success([f] + fs)
          case None => Success(fs)
  }

  /** Present keeps the order of the entries, so their indices come out strictly increasing. */
  lemma {:induction false} PresentIndices(entries: seq<Entry>, start: int)
    requires Indexed(entries, start)
    ensures var r := Present(entries);
      r.Success? ==> forall i :: 0 <= i < |r.value| ==> start <= r.value[i].index < start + |entries|
    ensures var r := Present(entries);
      r.Success? ==> forall i, j :: 0 <= i < j < |r.value| ==> r.value[i].index < r.value[j].index
  {
    if entries != [] {
      assert Indexed(entries[1..], start + 1) by {
        forall i | 0 <= i < |entries[1..]| && entries[1..][i].Success? && entries[1..][i].value.Some?
          ensures entries[1..][i].value.value.index == start + 1 + i
        {
          assert entries[1..][i] == entries[i + 1];
        }
      }
      PresentIndices(entries[1..], start + 1);
    }
  }

  /** Every present entry ends up in the result: nothing but the empty entries is dropped. */
  lemma {:induction false} PresentKeeps(entries: seq<Entry>, k: nat)
    requires Present(entries).Success?
    requires k < |entries| && entries[k].Success? && entries[k].value.Some?
    ensures entries[k].value.value in Present(entries).value
  {
    if k > 0 {
      assert entries[1..][k - 1] == entries[k];
      PresentKeeps(entries[1..], k - 1);
    }
  }

  /** Every field of the result is one of the present entries. */
  lemma {:induction false} PresentOnly(entries: seq<Entry>)
    requires Present(entries).Success?
    ensures forall f :: f in Present(entries).value ==> Success(Some(f)) in entries
  {
    if entries != [] {
      PresentOnly(entries[1..]);
      forall f | f in Present(entries[1..]).value ensures Success(Some(f)) in entries {
        var j :| 0 <= j < |entries[1..]| && entries[1..][j] == Success(Some(f));
        assert entries[j + 1] == Success(Some(f));
      }
    }
  }

  /** The result is shorter than the entries exactly when some entry is empty. */
  lemma {:induction false} PresentShorter(entries: seq<Entry>)
    requires Present(entries).Success?
    ensures |Present(entries).value| < |entries| <==> Success(None) in entries
  {
    if entries != [] {
      PresentShorter(entries[1..]);
      if Success(None) in entries[1..] {
        var j :| 0 <= j < |entries[1..]| && entries[1..][j] == Success(None);
        assert entries[j + 1] == Success(None);
      }
      if Success(None) in entries && entries[0] != Success(None) {
        var j :| 0 <= j < |entries| && entries[j] == Success(None);
        assert entries[1..][j - 1] == Success(None);
      }
    }
  }

  /** A failing result carries the error of the first failing entry. */
  lemma {:induction false} PresentFirstFailure(entries: seq<Entry>) returns (k: nat)
    requires Present(entries).Failure?
    ensures k < |entries| && entries[k] == Failure(Present(entries).error)
    ensures forall i :: 0 <= i < k ==> entries[i].Success?
  {
    if entries[0].Failure? {
      k := 0;
    } else {
      var k1 := PresentFirstFailure(entries[1..]);
      k := k1 + 1;
      assert entries[k] == entries[1..][k1];
      forall i | 0 <= i < k ensures entries[i].Success? {
        if i > 0 {
          assert entries[i] == entries[1..][i - 1];
        }
      }
    }
  }

  // ---------------------------------------------------------------- in terms of the header

  /** Each field is what CsvField.from made of the piece at its index, and every field CsvField.from makes is kept. */
  lemma HeaderFieldsArePieces(header: string, fieldTerminator: char, quotationCharacter: char, postfix: Option<string> -> string)
    requires ProcessHeader(header, fieldTerminator, quotationCharacter, postfix).Success?
    ensures var pieces := Split(header, fieldTerminator);
      var fs := ProcessHeader(header, fieldTerminator, quotationCharacter, postfix).value;
      forall i :: 0 <= i < |fs| ==> FromAsWritten(fs[i].index, pieces[fs[i].index], quotationCharacter, postfix) == Success(Some(fs[i]))
    ensures var pieces := Split(header, fieldTerminator);
      var fs := ProcessHeader(header, fieldTerminator, quotationCharacter, postfix).value;
      forall k, f :: 0 <= k < |pieces| && FromAsWritten(k, pieces[k], quotationCharacter, postfix) == Success(Some(f)) ==> f in fs
  {
    var pieces := Split(header, fieldTerminator);
    var entries := Entries(pieces, quotationCharacter, postfix);
    var fs := Present(entries).value;
    PresentOnly(entries);
    forall i | 0 <= i < |fs|
      ensures FromAsWritten(fs[i].index, pieces[fs[i].index], quotationCharacter, postfix) == Success(Some(fs[i]))
    {
      assert fs[i] in fs;
      var j :| 0 <= j < |entries| && entries[j] == Success(Some(fs[i]));
      assert fs[i].index == j;
    }
    forall k, f | 0 <= k < |pieces| && FromAsWritten(k, pieces[k], quotationCharacter, postfix) == Success(Some(f)) ensures f in fs {
      PresentKeeps(entries, k);
    }
  }

  /** Fields are dropped exactly when some piece, as it stands, ends in `:IGNORE` (in any case). */
  lemma HeaderDropsIgnored(header: string, fieldTerminator: char, quotationCharacter: char, postfix: Option<string> -> string)
    requires ProcessHeader(header, fieldTerminator, quotationCharacter, postfix).Success?
    ensures var pieces := Split(header, fieldTerminator);
      var fs := ProcessHeader(header, fieldTerminator, quotationCharacter, postfix).value;
      |fs| < |pieces| <==> exists k :: 0 <= k < |pieces| && IsIgnored(pieces[k])
  {
    var pieces := Split(header, fieldTerminator);
    var entries := Entries(pieces, quotationCharacter, postfix);
    PresentShorter(entries);
    if Success(None) in entries {
      var k :| 0 <= k < |entries| && entries[k] == Success(None);
      assert FromAsWritten(k, pieces[k], quotationCharacter, postfix) == Success(None);
    }
    if exists k :: 0 <= k < |pieces| && IsIgnored(pieces[k]) {
      var k :| 0 <= k < |pieces| && IsIgnored(pieces[k]);
      assert entries[k] == Success(None);
    }
  }

  /** The call fails exactly when CsvField.from fails on some piece. */
  lemma HeaderFails(header: string, fieldTerminator: char, quotationCharacter: char, postfix: Option<string> -> string)
    ensures var pieces := Split(header, fieldTerminator);
      var failed := ProcessHeader(header, fieldTerminator, quotationCharacter, postfix).Failure?;
      failed <==> exists k :: 0 <= k < |pieces| && FromAsWritten(k, pieces[k], quotationCharacter, postfix).Failure?
  {
    var pieces := Split(header, fieldTerminator);
    var entries := Entries(pieces, quotationCharacter, postfix);
    if exists k :: 0 <= k < |pieces| && FromAsWritten(k, pieces[k], quotationCharacter, postfix).Failure? {
      var k :| 0 <= k < |pieces| && FromAsWritten(k, pieces[k], quotationCharacter, postfix).Failure?;
      assert entries[k].Failure?;
    }
  }

  /**
   * The call fails exactly when some piece is malformed, and then with the
   * error naming the first malformed piece, every piece before it being fine.
   */
  lemma HeaderFirstMalformed(header: string, fieldTerminator: char, quotationCharacter: char, postfix: Option<string> -> string)
    requires ProcessHeader(header, fieldTerminator, quotationCharacter, postfix).Failure?
    ensures var pieces := Split(header, fieldTerminator);
      exists k :: 0 <= k < |pieces|
        && FromAsWritten(k, pieces[k], quotationCharacter, postfix).Failure?
        && (forall i :: 0 <= i < k ==> FromAsWritten(i, pieces[i], quotationCharacter, postfix).Success?)
        && ProcessHeader(header, fieldTerminator, quotationCharacter, postfix).error == NotWellFormed(pieces[k])
  {
    var pieces := Split(header, fieldTerminator);
    var entries := Entries(pieces, quotationCharacter, postfix);
    var k := PresentFirstFailure(entries);
    assert FromAsWritten(k, pieces[k], quotationCharacter, postfix).Failure?;
    forall i | 0 <= i < k ensures FromAsWritten(i, pieces[i], quotationCharacter, postfix).Success? {
      assert entries[i].Success?;
    }
  }

  // ---------------------------------------------------------------- the corrected header

  /** processHeader over the corrected CsvField.from. */
  function CorrectedHeader(header: string, fieldTerminator: char, quotationCharacter: char, postfix: Option<string> -> string)
    : (r: Result<seq<CsvField>, FieldError>)
    ensures r.Success? ==> |r.value| <= |Split(header, fieldTerminator)|
    ensures r.Success? ==> forall i, j :: 0 <= i < j < |r.value| ==> r.value[i].index < r.value[j].index
  {
    var entries := CorrectedEntries(Split(header, fieldTerminator), quotationCharacter, postfix);
    PresentIndices(entries, 0);
    Present(entries)
  }

  function CorrectedEntries(pieces: seq<string>, quotationCharacter: char, postfix: Option<string> -> string): (es: seq<Entry>)
    ensures |es| == |pieces|
    ensures forall i :: 0 <= i < |pieces| ==> es[i] == From(i, pieces[i], quotationCharacter, postfix)
  {
    seq(|pieces|, i requires 0 <= i < |pieces| => From(i, pieces[i], quotationCharacter, postfix))
  }

  /** With the corrected rule a piece is dropped exactly when it ends in `:IGNORE` once unquoted, quoted or not. */
  lemma CorrectedDropsIgnored(header: string, fieldTerminator: char, quotationCharacter: char, postfix: Option<string> -> string)
    requires CorrectedHeader(header, fieldTerminator, quotationCharacter, postfix).Success?
    ensures var pieces := Split(header, fieldTerminator);
      var fs := CorrectedHeader(header, fieldTerminator, quotationCharacter, postfix).value;
      |fs| < |pieces| <==> exists k :: 0 <= k < |pieces| && IsIgnored(RemoveChar(pieces[k], quotationCharacter))
  {
    var pieces := Split(header, fieldTerminator);
    var entries := CorrectedEntries(pieces, quotationCharacter, postfix);
    PresentShorter(entries);
    if Success(None) in entries {
      var k :| 0 <= k < |entries| && entries[k] == Success(None);
      assert From(k, pieces[k], quotationCharacter, postfix) == Success(None);
    }
    if exists k :: 0 <= k < |pieces| && IsIgnored(RemoveChar(pieces[k], quotationCharacter)) {
      var k :| 0 <= k < |pieces| && IsIgnored(RemoveChar(pieces[k], quotationCharacter));
      assert entries[k] == Success(None);
    }
  }

  /** A header without quotation characters gives the same result as written and corrected. */
  lemma CorrectedAgrees(header: string, fieldTerminator: char, quotationCharacter: char, postfix: Option<string> -> string)
    requires quotationCharacter !in header
    ensures ProcessHeader(header, fieldTerminator, quotationCharacter, postfix)
         == CorrectedHeader(header, fieldTerminator, quotationCharacter, postfix)
  {
    var pieces := Split(header, fieldTerminator);
    SplitWithin(header, fieldTerminator, quotationCharacter);
    var written := Entries(pieces, quotationCharacter, postfix);
    var corrected := CorrectedEntries(pieces, quotationCharacter, postfix);
    forall i | 0 <= i < |pieces| ensures written[i] == corrected[i] {
      FromAgrees(i, pieces[i], quotationCharacter, postfix);
    }
    assert written == corrected;
  }
}
