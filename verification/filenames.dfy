/** The name under which one recovered image is written: `img_{xref}.{ext}`. */
module FileNames {
  import opened Basics
  import opened Strings

  const PREFIX: string := "img_"

  function FileName(xref: nat, ext: string): (name: string)
  {
    PREFIX + Decimal(xref) + "." + ext
  }

  /** Reads an output name back into the xref and extension it was built from. */
  function ParseFileName(name: string): (r: Option<(nat, string)>)
  {
    if |name| < |PREFIX| || name[..|PREFIX|] != PREFIX then None
    else
      var rest := name[|PREFIX|..];
      var k := LeadingDigits(rest);
      if k == 0 || k == |rest| || rest[k] != '.' then None
      else Some((DecimalValue(rest[..k]), rest[k + 1..]))
  }

  lemma FileNameRoundTrip(xref: nat, ext: string)
    ensures ParseFileName(FileName(xref, ext)) == Some((xref, ext))
  {
    var name := FileName(xref, ext);
    var d := Decimal(xref);
    var rest := name[|PREFIX|..];
    assert name[..|PREFIX|] == PREFIX;
    assert rest == d + ['.'] + ext;
    LeadingDigitsOfDigitsThen(d, '.', ext);
    assert rest[..|d|] == d;
    assert rest[|d| + 1..] == ext;
    DecimalRoundTrip(xref);
  }

  /** Distinct (xref, ext) pairs never share an output file. */
  lemma FileNameInjective(x1: nat, e1: string, x2: nat, e2: string)
    requires FileName(x1, e1) == FileName(x2, e2)
    ensures x1 == x2 && e1 == e2
  {
    FileNameRoundTrip(x1, e1);
    FileNameRoundTrip(x2, e2);
  }
}
