/** Upload and display helpers: the company list offered for filtering, the checks an uploaded
    file must pass, byte-size rendering and text truncation. */
module Helpers {
  import opened Text
  import opened Numerals
  import opened Wrappers
  import opened PdfNames
  import Ordering

  /** An uploaded file as the upload widget presents it: its name and its size in bytes. */
  datatype UploadedFile = UploadedFile(name: string, size: int)

  /** The option that searches every company; it is always offered. */
  const AllCompanies: string := "General"

  /** The company entries a folder listing contributes, in listing order: one per PDF name. */
  function CompanyEntries(files: seq<string>): (entries: seq<string>)
    ensures |entries| <= |files|
    decreases |files|
  {
    if files == [] then []
    else
      var last := files[|files| - 1];
      CompanyEntries(files[..|files| - 1]) + (if IsPdfName(last) then [CompanyFromFilename(last)] else [])
  }

  /** A name is an entry exactly when some PDF file in the listing yields it. */
  lemma CompanyEntriesMembership(files: seq<string>, c: string)
    ensures c in CompanyEntries(files) <==>
      exists i :: 0 <= i < |files| && IsPdfName(files[i]) && CompanyFromFilename(files[i]) == c
  {
    if c in CompanyEntries(files) {
      EntryHasFile(files, c);
    }
    if exists i :: 0 <= i < |files| && IsPdfName(files[i]) && CompanyFromFilename(files[i]) == c {
      var i :| 0 <= i < |files| && IsPdfName(files[i]) && CompanyFromFilename(files[i]) == c;
      FileHasEntry(files, i);
    }
  }

  lemma {:induction false} EntryHasFile(files: seq<string>, c: string)
    requires c in CompanyEntries(files)
    ensures exists i :: 0 <= i < |files| && IsPdfName(files[i]) && CompanyFromFilename(files[i]) == c
    decreases |files|
  {
    var init := files[..|files| - 1];
    if c in CompanyEntries(init) {
      EntryHasFile(init, c);
      var i :| 0 <= i < |init| && IsPdfName(init[i]) && CompanyFromFilename(init[i]) == c;
      assert files[i] == init[i];
    } else {
      var k := |files| - 1;
      assert IsPdfName(files[k]) && CompanyFromFilename(files[k]) == c;
    }
  }

  lemma {:induction false} FileHasEntry(files: seq<string>, i: nat)
    requires i < |files| && IsPdfName(files[i])
    ensures CompanyFromFilename(files[i]) in CompanyEntries(files)
    decreases |files|
  {
    var init := files[..|files| - 1];
    if i < |init| {
      FileHasEntry(init, i);
      assert init[i] == files[i];
    }
  }

  /** The number of entries is the number of PDF names in the listing. */
  function CountPdfNames(files: seq<string>): nat
    decreases |files|
  {
    if files == [] then 0
    else CountPdfNames(files[..|files| - 1]) + (if IsPdfName(files[|files| - 1]) then 1 else 0)
  }

  lemma {:induction false} CompanyEntriesCount(files: seq<string>)
    ensures |CompanyEntries(files)| == CountPdfNames(files)
    decreases |files|
  {
    if files != [] {
      CompanyEntriesCount(files[..|files| - 1]);
    }
  }

  /** get_available_companies: "General" plus one entry per PDF in the folder, sorted. A folder
      that does not exist is an absent listing and offers "General" alone. */
  method GetAvailableCompanies(listing: Option<seq<string>>) returns (companies: seq<string>)
    ensures Ordering.Sorted(companies)
    ensures listing.None? ==> companies == [AllCompanies]
    ensures listing.Some? ==>
      multiset(companies) == multiset([AllCompanies] + CompanyEntries(listing.value))
    ensures AllCompanies in companies
  {
    var found := [AllCompanies];
    if listing.Some? {
      var files := listing.value;
      var i := 0;
      while i < |files|
        invariant 0 <= i <= |files|
        invariant found == [AllCompanies] + CompanyEntries(files[..i])
      {
        var file := files[i];
        if IsPdfName(file) {
          found := found + [CompanyFromFilename(file)];
        }
        assert files[..i + 1][..i] == files[..i];
        i := i + 1;
      }
      assert files[..i] == files;
    }
    companies := Ordering.Sort(found);
    assert AllCompanies in multiset(found);
  }

  /** The messages validate_pdf_file returns. */
  const NoFileMessage: string := "No file uploaded"
  const NotPdfMessage: string := "File must be a PDF"
  const TooLargeMessage: string := "File too large. Maximum size is 50MB"
  const ValidMessage: string := "Valid PDF file"

  /** The upload limit: 50 MiB. */
  const MaxUploadSize: int := 50 * 1024 * 1024

  /** validate_pdf_file: the checks run in order (presence, extension, size) and the first that
      fails decides the message. */
  function ValidatePdfFile(file: Option<UploadedFile>): (r: (bool, string))
    ensures r.0 <==> file.Some? && IsPdfName(file.value.name) && file.value.size <= MaxUploadSize
  {
    if file.None? then (false, NoFileMessage)
    else if !IsPdfName(file.value.name) then (false, NotPdfMessage)
    else if file.value.size > MaxUploadSize then (false, TooLargeMessage)
    else (true, ValidMessage)
  }

  /** Each outcome of the cascade, with the order of the checks: a wrong extension is reported
      whatever the size, and the size is only looked at for a PDF name. */
  lemma ValidateCascade(file: Option<UploadedFile>)
    ensures file.None? ==> ValidatePdfFile(file) == (false, NoFileMessage)
    ensures file.Some? && !IsPdfName(file.value.name) ==> ValidatePdfFile(file) == (false, NotPdfMessage)
    ensures file.Some? && IsPdfName(file.value.name) && file.value.size > MaxUploadSize ==>
      ValidatePdfFile(file) == (false, TooLargeMessage)
    ensures ValidatePdfFile(file).0 <==> ValidatePdfFile(file) == (true, ValidMessage)
  {
  }

  /** A file of exactly 50 MiB is still accepted; one byte more is refused. */
  lemma SizeLimitBoundary(name: string)
    requires IsPdfName(name)
    ensures ValidatePdfFile(Some(UploadedFile(name, 52428800))) == (true, ValidMessage)
    ensures ValidatePdfFile(Some(UploadedFile(name, 52428801))) == (false, TooLargeMessage)
  {
  }

  /** truncate_text: short text is kept, longer text is cut to max_length characters and marked
      with "..." (a negative max_length cuts from the end, as a Python slice does). */
  function TruncateText(text: string, maxLength: int): (r: string)
    ensures |text| <= maxLength ==> r == text
    ensures |text| > maxLength ==> |r| >= 3 && EndsWith(r, "...") && r[..|r| - 3] == PyPrefix(text, maxLength)
  {
    if |text| <= maxLength then text else PyPrefix(text, maxLength) + "..."
  }

  /** The limit truncate_text uses when none is given. */
  const DefaultTruncateLength: int := 300

  /** What a cut keeps: for a non-negative limit, exactly the first max_length characters and the
      marker, so the result is three characters longer than the limit. */
  lemma TruncateLong(text: string, maxLength: int)
    requires 0 <= maxLength < |text|
    ensures var r := TruncateText(text, maxLength);
      |r| == maxLength + 3 && r[..maxLength] == text[..maxLength] && EndsWith(r, "...")
  {
    var r := TruncateText(text, maxLength);
    assert r[|r| - 3..] == "...";
  }

  /** Cutting an already cut text for the same non-negative limit changes nothing more. */
  lemma TruncateIdempotent(text: string, maxLength: int)
    requires maxLength >= 0
    ensures TruncateText(TruncateText(text, maxLength), maxLength) == TruncateText(text, maxLength)
  {
    var r := TruncateText(text, maxLength);
    if |text| > maxLength {
      assert r[..maxLength] == text[..maxLength];
    }
  }

  /** With the default limit, a preview is at most 303 characters long, and a longer text keeps
      its first 300 characters. */
  lemma TruncateDefault(text: string)
    ensures var r := TruncateText(text, DefaultTruncateLength);
      |r| <= DefaultTruncateLength + 3 &&
      (|text| <= DefaultTruncateLength ==> r == text) &&
      (|text| > DefaultTruncateLength ==> r[..DefaultTruncateLength] == text[..DefaultTruncateLength])
  {
    if |text| > DefaultTruncateLength {
      TruncateLong(text, DefaultTruncateLength);
    }
  }

  /** Rounds a / b to the nearest integer, an exact half going to the even neighbour. */
  function RoundHalfEven(a: nat, b: nat): (q: nat)
    requires b > 0
  {
    var q := a / b;
    var r := a % b;
    if 2 * r < b then q
    else if 2 * r > b then q + 1
    else if q % 2 == 0 then q else q + 1
  }

  /** The rounding is to a nearest integer, and an exact tie gives an even one. */
  lemma RoundHalfEvenNearest(a: nat, b: nat)
    requires b > 0
    ensures var q := RoundHalfEven(a, b);
      2 * a <= 2 * q * b + b && 2 * q * b <= 2 * a + b &&
      (2 * a == 2 * q * b + b || 2 * q * b == 2 * a + b ==> q % 2 == 0)
  {
    var q0 := a / b;
    var r := a % b;
    assert a == q0 * b + r;
    assert (q0 + 1) * b == q0 * b + b;
    var q := RoundHalfEven(a, b);
    assert 2 * q * b == 2 * (q * b);
    if 2 * a == 2 * q * b + b && 2 * r != b {
      assert q == q0 || q == q0 + 1;
    }
  }

  /** A count of hundredths written with two decimals: "<whole>.<tenths><hundredths>". */
  function Hundredths(q: nat): string {
    NatToString(q / 100) + "." + [DigitChar(q % 100 / 10), DigitChar(q % 10)]
  }

  /** Two digits read back as a number below 100. */
  lemma DigitPair(d1: nat, d2: nat)
    requires d1 < 10 && d2 < 10
    ensures AllDigits([DigitChar(d1), DigitChar(d2)])
    ensures ParseNat([DigitChar(d1), DigitChar(d2)]) == d1 * 10 + d2
  {
    var c1, c2 := DigitChar(d1), DigitChar(d2);
    var frac := [c1, c2];
    assert DigitValue(c1) == d1 && DigitValue(c2) == d2;
    assert frac[..1] == [c1] && [c1][..0] == [];
    assert ParseNat([c1]) == d1;
    assert ParseNat(frac) == ParseNat(frac[..1]) * 10 + DigitValue(frac[1]);
  }

  /** The whole part is canonical, and whole part and decimals read back to the count. */
  lemma HundredthsRoundTrip(q: nat)
    ensures var s := Hundredths(q); var w := |s| - 3;
      w > 0 && s[w] == '.' && AllDigits(s[..w]) && AllDigits(s[w + 1..]) && IsCanonical(s[..w]) &&
      ParseNat(s[..w]) * 100 + ParseNat(s[w + 1..]) == q
  {
    var s := Hundredths(q);
    var w := |s| - 3;
    var whole, d1, d2 := q / 100, q % 100 / 10, q % 10;
    assert s[..w] == NatToString(whole);
    assert s[w + 1..] == [DigitChar(d1), DigitChar(d2)];
    ParseNatToString(whole);
    NatToStringCanonical(whole);
    DigitPair(d1, d2);
    assert whole * 100 + (d1 * 10 + d2) == q;
  }

  /** Python's format spec ".2f" applied to the exact quotient a / b: the integer part, a point
      and two decimals, correctly rounded with ties to even. */
  function TwoDecimals(a: nat, b: nat): (s: string)
    requires b > 0
  {
    Hundredths(RoundHalfEven(100 * a, b))
  }

  /** Reading the rendering back gives the hundredths nearest to a / b. */
  lemma TwoDecimalsValue(a: nat, b: nat)
    requires b > 0
    ensures var s := TwoDecimals(a, b); var w := |s| - 3;
      w > 0 && s[w] == '.' && AllDigits(s[..w]) && AllDigits(s[w + 1..]) && IsCanonical(s[..w]) &&
      ParseNat(s[..w]) * 100 + ParseNat(s[w + 1..]) == RoundHalfEven(100 * a, b)
  {
    HundredthsRoundTrip(RoundHalfEven(100 * a, b));
  }

  /** format_file_size: bytes below 1 KiB as an integer, then KiB and MiB with two decimals. The
      unit names the range the size falls in. */
  function FormatFileSize(sizeBytes: int): (s: string)
    ensures |s| >= 3 && s[|s| - 1] == 'B'
    ensures s[|s| - 2] == (if sizeBytes < 1024 then ' ' else if sizeBytes < 1024 * 1024 then 'K' else 'M')
  {
    if sizeBytes < 1024 then IntToString(sizeBytes) + " B"
    else if sizeBytes < 1024 * 1024 then TwoDecimals(sizeBytes, 1024) + " KB"
    else TwoDecimals(sizeBytes, 1024 * 1024) + " MB"
  }

  /** The byte branch renders the integer in decimal and reads back to it; the unit tells the
      three branches apart. */
  lemma FormatBytes(n: int)
    requires n < 1024
    ensures var s := FormatFileSize(n);
      (|s| >= 3 && EndsWith(s, " B") && IsIntNumeral(s[..|s| - 2]) && ParseInt(s[..|s| - 2]) == n)
  {
    var s := FormatFileSize(n);
    IntToStringRoundTrip(n);
    assert s[..|s| - 2] == IntToString(n);
    assert s[|s| - 2..] == " B";
  }

  /** From 1 KiB on, the text before the unit is a canonical two-decimal numeral that reads back
      to the hundredths nearest to n / 1024 (below 1 MiB, with " KB") or n / 1048576 (with " MB"). */
  lemma FormatLarger(n: int)
    requires n >= 1024
    ensures var s := FormatFileSize(n); var w := |s| - 6;
      var unit := if n < 1024 * 1024 then 1024 else 1024 * 1024;
      var q := ParseNat(s[..w]) * 100 + ParseNat(s[w + 1..w + 3]);
      (w > 0 && s[w] == '.' && AllDigits(s[..w]) && IsCanonical(s[..w]) && AllDigits(s[w + 1..w + 3]) &&
       s[w + 3..] == (if n < 1024 * 1024 then " KB" else " MB") &&
       q == RoundHalfEven(100 * n, unit) &&
       2 * (100 * n) <= 2 * q * unit + unit && 2 * q * unit <= 2 * (100 * n) + unit)
  {
    var s := FormatFileSize(n);
    var unit := if n < 1024 * 1024 then 1024 else 1024 * 1024;
    var t := TwoDecimals(n, unit);
    var u := if n < 1024 * 1024 then " KB" else " MB";
    assert s == t + u;
    TwoDecimalsValue(n, unit);
    RoundHalfEvenNearest(100 * n, unit);
    var w := |s| - 6;
    assert s[..w] == t[..|t| - 3];
    assert s[w + 1..w + 3] == t[|t| - 2..];
    assert s[w + 3..] == u;
  }

  lemma FormatByteExamples()
    ensures FormatFileSize(500) == "500 B"
    ensures FormatFileSize(1023) == "1023 B"
  {
  }

  lemma FormatKilobyteExamples()
    ensures FormatFileSize(1024) == "1.00 KB"
    ensures FormatFileSize(1536) == "1.50 KB"
    ensures FormatFileSize(2048) == "2.00 KB"
  {
    assert RoundHalfEven(102400, 1024) == 100;
    assert RoundHalfEven(153600, 1024) == 150;
    assert RoundHalfEven(204800, 1024) == 200;
  }

  lemma FormatMegabyteExamples()
    ensures FormatFileSize(1048576) == "1.00 MB"
    ensures FormatFileSize(2097152) == "2.00 MB"
  {
    assert RoundHalfEven(104857600, 1048576) == 100;
    assert RoundHalfEven(209715200, 1048576) == 200;
  }
}
