/** NumericTableWidgetItem::operator<, the sort order of the table columns
    that hold numbers: numeric when both cells convert, text order
    otherwise. */
module NumericItem {
  import opened Wrappers
  import opened Text
  import opened Numbers

  /** The cell text `a` sorts before the cell text `b`. */
  predicate Less(a: string, b: string) {
    if IsNumber(a) && IsNumber(b) then ParseNumber(a).value < ParseNumber(b).value
    else LexLess(a, b)
  }

  /** Cells that both convert compare by value. */
  lemma LessOfNumbers(a: string, b: string, x: real, y: real)
    requires ParseNumber(a) == Some(x) && ParseNumber(b) == Some(y)
    ensures Less(a, b) <==> x < y
  {
  }

  /** A cell that does not convert makes the pair compare as text. */
  lemma LessOfText(a: string, b: string)
    requires !IsNumber(a) || !IsNumber(b)
    ensures Less(a, b) <==> LexLess(a, b)
  {
  }

  /** No cell sorts before itself, in either branch. */
  lemma LessIrreflexive(a: string)
    ensures !Less(a, a)
  {
    LexLessIrreflexive(a);
  }

  /** The branch taken is the same for (a, b) and (b, a), so the order is
      asymmetric. */
  lemma LessAsymmetric(a: string, b: string)
    requires Less(a, b)
    ensures !Less(b, a)
  {
    if !(IsNumber(a) && IsNumber(b)) {
      LexLessAsymmetric(a, b);
    }
  }

  /** An empty cell does not convert, so it compares as text: it sorts before
      every non-empty cell and after none. */
  lemma EmptySortsFirst(b: string)
    ensures Less("", b) <==> b != ""
    ensures !Less(b, "")
  {
    BlankIsNotNumber("");
  }

  /** Cells written by QString::number(int) sort as their integers. */
  lemma LessFormatInt(i: int, j: int)
    ensures Less(FormatInt(i), FormatInt(j)) <==> i < j
  {
    ParseFormatInt(i);
    ParseFormatInt(j);
    LessOfNumbers(FormatInt(i), FormatInt(j), i as real, j as real);
  }

  /** Cells written with six decimals sort as the rounded values they show. */
  lemma LessFormatFixed6(x: real, y: real)
    ensures Less(FormatFixed6(x), FormatFixed6(y)) <==> Round6(x) < Round6(y)
  {
    ParseFormatFixed6(x);
    ParseFormatFixed6(y);
    LessOfNumbers(FormatFixed6(x), FormatFixed6(y), Round6(x), Round6(y));
  }

  lemma ParseTwo()
    ensures ParseNumber("2") == Some(2.0)
  {
    ParseFormatInt(2);
    assert FormatInt(2) == "2";
  }

  lemma ParseTen()
    ensures ParseNumber("10") == Some(10.0)
  {
    ParseFormatInt(10);
    assert NatDigits(10) == NatDigits(1) + [DigitChar(0)];
    assert FormatInt(10) == "10";
  }

  lemma OneXIsText()
    ensures !IsNumber("1x")
  {
    assert MantissaText("1x") == "1x";
    assert IntegerText("1x") == "1x";
    assert !IsDigit("1x"[1]);
  }

  /** On a column mixing numbers and text the order is not transitive:
      "2" < "10" by value and "10" < "1x" as text, yet "1x" < "2" as text. */
  lemma MixedColumnNotTransitive()
    ensures Less("2", "10") && Less("10", "1x") && Less("1x", "2")
  {
    ParseTwo();
    ParseTen();
    LessOfNumbers("2", "10", 2.0, 10.0);
    OneXIsText();
    LessOfText("10", "1x");
    LessOfText("1x", "2");
  }
}
