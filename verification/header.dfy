/**
 * The header row inside the raw text and its tracked length: the header row's
 * text followed by its row delimiter occupies `[0, headerLength)`. Adding a
 * column puts `delimiter + letter` in before that row delimiter; removing one
 * cuts the header from its last delimiter up to the body and puts the row
 * delimiter back.
 *
 * The `AsWritten` functions are the source's arithmetic, which presumes a row
 * delimiter of one character and searches for the last delimiter from the
 * header length inclusive; the others are the corrected arithmetic the editor
 * model uses.
 */
module Header {
  import opened Text

  /** The raw text after a header edit together with the new header length. */
  datatype HeaderEdit = HeaderEdit(text: string, headerLength: int)

  /**
   * `delimiter + letter` goes in just before the header's row delimiter: the
   * header gains the letter, the header length grows by exactly what was
   * inserted and the body is untouched.
   */
  function AddHeaderLabel(raw: string, delimiter: string, rowDelimiter: string, headerLength: int, letter: string): (e: HeaderEdit)
    requires |rowDelimiter| <= headerLength <= |raw|
    ensures e.headerLength == headerLength + |delimiter| + |letter|
    ensures |e.text| == |raw| + |delimiter| + |letter|
    ensures e.text[..e.headerLength] ==
      raw[..headerLength - |rowDelimiter|] + delimiter + letter + raw[headerLength - |rowDelimiter|..headerLength]
    ensures e.text[e.headerLength..] == raw[headerLength..]
  {
    var at := headerLength - |rowDelimiter|;
    var text := raw[..at] + (delimiter + letter) + raw[at..];
    assert text[..at] == raw[..at];
    assert text[at + |delimiter| + |letter|..] == raw[at..];
    assert raw[at..] == raw[at..headerLength] + raw[headerLength..];
    HeaderEdit(text, headerLength + |delimiter| + |letter|)
  }

  /** The splice reads only the header: texts that share it get the same new header. */
  lemma AddHeaderLabelSeesHeader(raw: string, other: string, delimiter: string, rowDelimiter: string, headerLength: int, letter: string)
    requires |rowDelimiter| <= headerLength <= |raw| && headerLength <= |other|
    requires raw[..headerLength] == other[..headerLength]
    ensures var e := AddHeaderLabel(raw, delimiter, rowDelimiter, headerLength, letter);
      e.text[..e.headerLength] ==
        other[..headerLength - |rowDelimiter|] + delimiter + letter + other[headerLength - |rowDelimiter|..headerLength]
  {
    var at := headerLength - |rowDelimiter|;
    assert raw[..at] == raw[..headerLength][..at];
    assert other[..at] == other[..headerLength][..at];
    assert raw[at..headerLength] == raw[..headerLength][at..];
    assert other[at..headerLength] == other[..headerLength][at..];
  }

  /**
   * The trim reads only the header: a text `other` that shares the header
   * with `raw` can be trimmed too, at the same delimiter, and its new header
   * is `raw`'s.
   */
  lemma TrimHeaderLabelSeesHeader(raw: string, other: string, delimiter: string, rowDelimiter: string, headerLength: int)
    requires CanTrimHeader(raw, delimiter, rowDelimiter, headerLength) && headerLength <= |other|
    requires raw[..headerLength] == other[..headerLength]
    ensures CanTrimHeader(other, delimiter, rowDelimiter, headerLength)
    ensures var e := TrimHeaderLabel(other, delimiter, rowDelimiter, headerLength);
      var h := LastIndexOf(raw, delimiter, headerLength - |rowDelimiter| - |delimiter|);
      e.headerLength == h + |rowDelimiter| && e.text[..e.headerLength] == raw[..h] + rowDelimiter
  {
    var from := headerLength - |rowDelimiter| - |delimiter|;
    LastIndexOfPrefix(raw, other, delimiter, from, headerLength);
    var h := LastIndexOf(raw, delimiter, from);
    assert raw[..h] == raw[..headerLength][..h];
    assert other[..h] == other[..headerLength][..h];
  }

  /** The source's `addColumn` header splice: one character before the header length. */
  function AddHeaderLabelAsWritten(raw: string, delimiter: string, headerLength: int, letter: string): (e: HeaderEdit)
    requires 1 <= headerLength <= |raw|
    ensures e.headerLength == headerLength + |delimiter| + |letter|
    ensures |e.text| == |raw| + |delimiter| + |letter|
    ensures e.text[..headerLength - 1] == raw[..headerLength - 1]
    ensures e.text[e.headerLength - 1..] == raw[headerLength - 1..]
  {
    var at := headerLength - 1;
    HeaderEdit(raw[..at] + delimiter + letter + raw[at..], headerLength + |delimiter| + |letter|)
  }

  /**
   * What the trim needs: the header length covers a delimiter and the row
   * delimiter, and a delimiter lies wholly inside the header text.
   */
  predicate CanTrimHeader(raw: string, delimiter: string, rowDelimiter: string, headerLength: int) {
    |rowDelimiter| + |delimiter| <= headerLength <= |raw| &&
    LastIndexOf(raw, delimiter, headerLength - |rowDelimiter| - |delimiter|) >= 0
  }

  /**
   * The header loses its last letter: the text from the last delimiter that
   * lies wholly inside the header text up to the header length becomes the
   * row delimiter. The header length becomes that delimiter's index plus the
   * row delimiter's length, and the body is untouched.
   */
  function TrimHeaderLabel(raw: string, delimiter: string, rowDelimiter: string, headerLength: int): (e: HeaderEdit)
    requires CanTrimHeader(raw, delimiter, rowDelimiter, headerLength)
    ensures var h := LastIndexOf(raw, delimiter, headerLength - |rowDelimiter| - |delimiter|);
      h + |delimiter| <= headerLength - |rowDelimiter| &&
      |e.text| == |raw| - (headerLength - |rowDelimiter| - h) &&
      e.headerLength == h + |rowDelimiter| &&
      e.text[..e.headerLength] == raw[..h] + rowDelimiter &&
      e.text[e.headerLength..] == raw[headerLength..]
  {
    var headerIndex := LastIndexOf(raw, delimiter, headerLength - |rowDelimiter| - |delimiter|);
    var slicedHeader := raw[headerIndex..headerLength];
    var text := raw[..headerIndex] + rowDelimiter + raw[headerLength..];
    assert text[..headerIndex + |rowDelimiter|] == raw[..headerIndex] + rowDelimiter;
    HeaderEdit(text, headerLength - (|slicedHeader| - |rowDelimiter|))
  }

  /**
   * The source's `removeColumn` header splice: the search for the last
   * delimiter starts at the header length itself, and the new length presumes a
   * row delimiter of one character.
   */
  function TrimHeaderLabelAsWritten(raw: string, delimiter: string, rowDelimiter: string, headerLength: int): (e: HeaderEdit)
    requires 0 <= headerLength <= |raw|
    requires LastIndexOf(raw, delimiter, headerLength) >= 0
    ensures var h := LastIndexOf(raw, delimiter, headerLength);
      h <= headerLength &&
      |e.text| == |raw| - (headerLength - h) + |rowDelimiter| &&
      e.text[..h] == raw[..h] &&
      e.text[h + |rowDelimiter|..] == raw[headerLength..] &&
      e.headerLength == h + 1
  {
    var headerIndex := LastIndexOf(raw, delimiter, headerLength);
    var slicedHeader := raw[headerIndex..headerLength];
    var text := raw[..headerIndex] + rowDelimiter + raw[headerLength..];
    assert text[..headerIndex] == raw[..headerIndex];
    assert text[headerIndex + |rowDelimiter|..] == raw[headerLength..];
    HeaderEdit(text, headerLength - (|slicedHeader| - 1))
  }

  // ---------------------------------------------------------------------------
  // Round trip

  /**
   * Removing the letter just added restores the text and the header length,
   * when the header ends with its row delimiter and no delimiter starts inside
   * the inserted letter.
   */
  lemma TrimUndoesAdd(raw: string, delimiter: string, rowDelimiter: string, headerLength: int, letter: string)
    requires |rowDelimiter| <= headerLength <= |raw|
    requires raw[headerLength - |rowDelimiter|..headerLength] == rowDelimiter
    requires forall j :: 0 < j <= |letter| ==> !Occurs(delimiter + letter, delimiter, j)
    ensures var e := AddHeaderLabel(raw, delimiter, rowDelimiter, headerLength, letter);
      LastIndexOf(e.text, delimiter, e.headerLength - |rowDelimiter| - |delimiter|) == headerLength - |rowDelimiter| &&
      TrimHeaderLabel(e.text, delimiter, rowDelimiter, e.headerLength) == HeaderEdit(raw, headerLength)
  {
    var at := headerLength - |rowDelimiter|;
    var grown := headerLength + |delimiter| + |letter|;
    var t := raw[..at] + delimiter + letter + raw[at..];
    AddHeaderLabelAt(raw, delimiter, rowDelimiter, headerLength, letter);
    var e := AddHeaderLabel(raw, delimiter, rowDelimiter, headerLength, letter);
    assert e.text == t && e.headerLength == grown;
    assert grown - |rowDelimiter| - |delimiter| == at + |letter|;
    FoundAtInsertedDelimiter(raw, delimiter, at, letter);
    TrimHeaderLabelAt(t, delimiter, rowDelimiter, grown, at);
    CutInserted(raw, delimiter, letter, rowDelimiter, at);
  }

  /** The splice spelled out. */
  lemma AddHeaderLabelAt(raw: string, delimiter: string, rowDelimiter: string, headerLength: int, letter: string)
    requires |rowDelimiter| <= headerLength <= |raw|
    ensures AddHeaderLabel(raw, delimiter, rowDelimiter, headerLength, letter) ==
      HeaderEdit(raw[..headerLength - |rowDelimiter|] + delimiter + letter + raw[headerLength - |rowDelimiter|..],
        headerLength + |delimiter| + |letter|)
  {
    var at := headerLength - |rowDelimiter|;
    assert raw[..at] + (delimiter + letter) + raw[at..] == raw[..at] + delimiter + letter + raw[at..];
  }

  /** Replacing `delimiter + letter + rowDelimiter` just put in at `at` by `rowDelimiter` gives the text back. */
  lemma CutInserted(raw: string, delimiter: string, letter: string, rowDelimiter: string, at: int)
    requires 0 <= at && at + |rowDelimiter| <= |raw| && raw[at..at + |rowDelimiter|] == rowDelimiter
    ensures var t := raw[..at] + delimiter + letter + raw[at..];
      t[..at] + rowDelimiter + t[at + |delimiter| + |letter| + |rowDelimiter|..] == raw
  {
    var t := raw[..at] + delimiter + letter + raw[at..];
    var end := at + |rowDelimiter|;
    assert t[..at] == raw[..at];
    assert t[at + |delimiter| + |letter| + |rowDelimiter|..] == raw[end..] by {
      assert t[at + |delimiter| + |letter|..] == raw[at..];
    }
    SplitThree(raw, at, end);
  }

  /** The trim spelled out once the last delimiter `h` is known. */
  lemma TrimHeaderLabelAt(raw: string, delimiter: string, rowDelimiter: string, headerLength: int, h: int)
    requires |rowDelimiter| + |delimiter| <= headerLength <= |raw|
    requires LastIndexOf(raw, delimiter, headerLength - |rowDelimiter| - |delimiter|) == h >= 0
    ensures TrimHeaderLabel(raw, delimiter, rowDelimiter, headerLength) ==
      HeaderEdit(raw[..h] + rowDelimiter + raw[headerLength..], h + |rowDelimiter|)
  {
  }

  /** After `delimiter + letter` goes in at `at`, the last delimiter before the letter's end is the inserted one. */
  lemma FoundAtInsertedDelimiter(raw: string, delimiter: string, at: int, letter: string)
    requires 0 <= at <= |raw|
    requires forall j :: 0 < j <= |letter| ==> !Occurs(delimiter + letter, delimiter, j)
    ensures LastIndexOf(raw[..at] + delimiter + letter + raw[at..], delimiter, at + |letter|) == at
  {
    var t := raw[..at] + delimiter + letter + raw[at..];
    var inserted := delimiter + letter;
    assert t[at..at + |inserted|] == inserted;
    OccursInside(t, inserted, delimiter, at, at);
    assert Occurs(inserted, delimiter, 0);
    forall k | at < k <= at + |letter|
      ensures !Occurs(t, delimiter, k)
    {
      OccursInside(t, inserted, delimiter, at, k);
    }
    FindDownSkips(t, delimiter, at, at + |letter|);
  }

  // ---------------------------------------------------------------------------
  // Where the source's arithmetic agrees, and where it does not

  /** With a one-character row delimiter the source's splice is the corrected one. */
  lemma AddAgreesForSingleCharRowDelimiter(raw: string, delimiter: string, rowDelimiter: string, headerLength: int, letter: string)
    requires |rowDelimiter| == 1 && 1 <= headerLength <= |raw|
    ensures AddHeaderLabelAsWritten(raw, delimiter, headerLength, letter) ==
      AddHeaderLabel(raw, delimiter, rowDelimiter, headerLength, letter)
  {
  }

  /**
   * With a one-character row delimiter, and no delimiter starting in the last
   * `|delimiter|` characters of the header or right at the start of the body,
   * the source's trim is the corrected one.
   */
  lemma TrimAgreesForSingleCharRowDelimiter(raw: string, delimiter: string, rowDelimiter: string, headerLength: int)
    requires |rowDelimiter| == 1 && 1 + |delimiter| <= headerLength <= |raw|
    requires LastIndexOf(raw, delimiter, headerLength - 1 - |delimiter|) >= 0
    requires forall k :: headerLength - 1 - |delimiter| < k <= headerLength ==> !Occurs(raw, delimiter, k)
    ensures LastIndexOf(raw, delimiter, headerLength) == LastIndexOf(raw, delimiter, headerLength - 1 - |delimiter|)
    ensures TrimHeaderLabelAsWritten(raw, delimiter, rowDelimiter, headerLength) ==
      TrimHeaderLabel(raw, delimiter, rowDelimiter, headerLength)
  {
    FindDownSkips(raw, delimiter, headerLength - 1 - |delimiter|, headerLength);
  }

  /**
   * Removing the last column of `A,B,C` when the first body cell is empty: the
   * text after the body cuts is "A,B,C\n,x\n,p" with header length 6. The
   * search from 6 finds the body's leading delimiter, so the source keeps the
   * header, adds an empty line and grows the header length to 7; the
   * corrected trim yields "A,B\n,x\n,p" with header length 4.
   */
  lemma EmptyFirstCellDefeatsTrim()
    ensures LastIndexOf("A,B,C\n,x\n,p", ",", 6) == 6
    ensures TrimHeaderLabelAsWritten("A,B,C\n,x\n,p", ",", "\n", 6) == HeaderEdit("A,B,C\n\n,x\n,p", 7)
    ensures LastIndexOf("A,B,C\n,x\n,p", ",", 4) == 3 &&
      TrimHeaderLabel("A,B,C\n,x\n,p", ",", "\n", 6) == HeaderEdit("A,B\n,x\n,p", 4)
  {
    var raw := "A,B,C\n,x\n,p";
    assert Occurs(raw, ",", 6);
    NotOccursAt(raw, ",", 4);
    assert Occurs(raw, ",", 3);
  }

  /**
   * Adding a column to the header "A\r\n": the source splices one character
   * before the header length, between '\r' and '\n'; the corrected splice puts
   * ",B" before "\r\n".
   */
  lemma CrLfSplitByAddedLabel()
    ensures AddHeaderLabelAsWritten("A\r\nx", ",", 3, "B") == HeaderEdit("A\r,B\nx", 5)
    ensures AddHeaderLabel("A\r\nx", ",", "\r\n", 3, "B") == HeaderEdit("A,B\r\nx", 5)
  {
  }

  /**
   * Removing the last column of the header "A,B\r\n": the source's header
   * length is 2, which ends between '\r' and '\n' of "A\r\n"; the corrected
   * header length is 3.
   */
  lemma CrLfHeaderLengthShort()
    ensures LastIndexOf("A,B\r\nx", ",", 5) == 1 &&
      TrimHeaderLabelAsWritten("A,B\r\nx", ",", "\r\n", 5) == HeaderEdit("A\r\nx", 2)
    ensures LastIndexOf("A,B\r\nx", ",", 2) == 1 &&
      TrimHeaderLabel("A,B\r\nx", ",", "\r\n", 5) == HeaderEdit("A\r\nx", 3)
  {
    var raw := "A,B\r\nx";
    assert Occurs(raw, ",", 1);
    NotOccursAt(raw, ",", 5);
    NotOccursAt(raw, ",", 4);
    NotOccursAt(raw, ",", 3);
    NotOccursAt(raw, ",", 2);
  }
}
