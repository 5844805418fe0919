/** Comma-separated settings: how a raw value is read and how a parsed list is reported. */
module CsvSettings {
  import opened Text

  function TrimAll(pieces: seq<string>): (r: seq<string>)
    ensures |r| == |pieces|
  {
    if pieces == [] then [] else [Trim(pieces[0])] + TrimAll(pieces[1..])
  }

  function DropEmpty(pieces: seq<string>): seq<string> {
    if pieces == [] then []
    else (if pieces[0] == [] then [] else [pieces[0]]) + DropEmpty(pieces[1..])
  }

  /** `parse_csv_values`: split on commas, trim, drop empties. */
  function ParseCsvValues(raw: string): seq<string> {
    DropEmpty(TrimAll(Split(raw, ',')))
  }

  /** How `runtime_env_value` reports a list. */
  function ReportedList(values: seq<string>): string {
    Join(values, ',')
  }

  /** An element a parsed list can hold. */
  predicate IsListElement(value: string) {
    value != [] && Trimmed(value) && ',' !in value
  }

  lemma {:induction false} CleanedPieces(pieces: seq<string>)
    requires forall i :: 0 <= i < |pieces| ==> ',' !in pieces[i]
    ensures forall i :: 0 <= i < |DropEmpty(TrimAll(pieces))| ==> IsListElement(DropEmpty(TrimAll(pieces))[i])
  {
    if pieces != [] {
      CleanedPieces(pieces[1..]);
      TrimShape(pieces[0]);
    }
  }

  lemma {:induction false} CleanPiecesStay(pieces: seq<string>)
    requires forall i :: 0 <= i < |pieces| ==> IsListElement(pieces[i])
    ensures DropEmpty(TrimAll(pieces)) == pieces
  {
    if pieces != [] {
      CleanPiecesStay(pieces[1..]);
      TrimShape(pieces[0]);
    }
  }

  /** Every parsed element is non-empty, trimmed and free of commas. */
  lemma ParsedElementsAreClean(raw: string)
    ensures forall i :: 0 <= i < |ParseCsvValues(raw)| ==> IsListElement(ParseCsvValues(raw)[i])
  {
    SplitPiecesAvoidSeparator(raw, ',');
    var pieces := Split(raw, ',');
    assert forall i :: 0 <= i < |pieces| ==> pieces[i] in pieces;
    CleanedPieces(pieces);
  }

  /** A list is reported so that it reads back unchanged exactly when its elements are clean. */
  lemma ReportReadsBackExactlyWhen(values: seq<string>)
    ensures ParseCsvValues(ReportedList(values)) == values
            <==> forall i :: 0 <= i < |values| ==> IsListElement(values[i])
  {
    ParsedElementsAreClean(ReportedList(values));
    if forall i :: 0 <= i < |values| ==> IsListElement(values[i]) {
      if values == [] {
        assert TrimAll([[]]) == [[]] by { assert Trim([]) == []; }
        assert DropEmpty([[]]) == [];
      } else {
        SplitJoin(values, ',');
        CleanPiecesStay(values);
      }
    }
  }

  /** A parsed setting survives being reported and parsed again. */
  lemma ListSettingsSurviveReporting(raw: string)
    ensures ParseCsvValues(ReportedList(ParseCsvValues(raw))) == ParseCsvValues(raw)
  {
    ParsedElementsAreClean(raw);
    ReportReadsBackExactlyWhen(ParseCsvValues(raw));
  }

  lemma {:induction false} TrimAllConcat(a: seq<string>, b: seq<string>)
    ensures TrimAll(a + b) == TrimAll(a) + TrimAll(b)
  {
    if a == [] {
      assert a + b == b;
    } else {
      TailOfConcat(a, b);
      TrimAllConcat(a[1..], b);
    }
  }

  lemma {:induction false} DropEmptyConcat(a: seq<string>, b: seq<string>)
    ensures DropEmpty(a + b) == DropEmpty(a) + DropEmpty(b)
  {
    if a == [] {
      assert a + b == b;
    } else {
      TailOfConcat(a, b);
      DropEmptyConcat(a[1..], b);
    }
  }

  /** Comma by comma: the elements of two texts joined by a comma are those of each, in order. */
  lemma CommaJoinsLists(a: string, b: string)
    ensures ParseCsvValues(a + [','] + b) == ParseCsvValues(a) + ParseCsvValues(b)
  {
    SplitConcat(a, ',', b);
    TrimAllConcat(Split(a, ','), Split(b, ','));
    DropEmptyConcat(TrimAll(Split(a, ',')), TrimAll(Split(b, ',')));
  }

  lemma CleanedSingle(piece: string)
    ensures DropEmpty(TrimAll([piece])) == if Trim(piece) == [] then [] else [Trim(piece)]
  {
    assert TrimAll([piece]) == [Trim(piece)];
    assert DropEmpty([Trim(piece)][1..]) == [];
  }

  /** Between commas: a padded element is read without its padding, and a blank one not at all. */
  lemma PaddingIsDropped(pre: string, value: string, post: string)
    requires IsBlank(pre) && IsBlank(post) && (value == [] || IsListElement(value))
    ensures ParseCsvValues(pre + value + post) == if value == [] then [] else [value]
  {
    var piece := pre + value + post;
    assert ',' !in piece;
    SplitPiece(piece, ',', []);
    TrimPadded(pre, value, post);
    CleanedSingle(piece);
  }

  lemma {:induction false} KeptExactlyWhen(pieces: seq<string>, value: string)
    ensures value in DropEmpty(TrimAll(pieces)) <==> exists p :: p in pieces && Trim(p) == value != []
  {
    if pieces != [] {
      KeptExactlyWhen(pieces[1..], value);
      assert forall p :: p in pieces <==> p == pieces[0] || p in pieces[1..];
    }
  }

  /** A value is listed exactly when it is what some comma-separated piece holds between its padding. */
  lemma ListedExactlyWhen(raw: string, value: string)
    ensures value in ParseCsvValues(raw) <==> value != [] && exists p :: p in Split(raw, ',') && Trim(p) == value
  {
    KeptExactlyWhen(Split(raw, ','), value);
  }
}
