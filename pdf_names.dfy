/** The two filename rules both the folder listing and the ingestion use: a file counts as a PDF
    when its lower-cased name ends in ".pdf", and its company name is the name with every
    ".pdf" removed, case-sensitively. */
module PdfNames {
  import opened Text

  const Extension: string := ".pdf"

  predicate IsPdfName(name: string) {
    EndsWith(Lower(name), Extension)
  }

  /** The company part of a file name: shorter or as long, and the name itself exactly when it
      holds no ".pdf". */
  function CompanyFromFilename(name: string): (company: string)
    ensures |company| <= |name|
    ensures company == name <==> !Occurs(name, Extension)
  {
    RemoveAllIdentityIff(name, Extension);
    RemoveAll(name, Extension)
  }

  /** The PDF test looks at the last four characters only, ignoring the case of the letters. */
  lemma IsPdfNameIff(name: string)
    ensures IsPdfName(name) <==>
      |name| >= 4 && name[|name| - 4] == '.' &&
      name[|name| - 3] in "pP" && name[|name| - 2] in "dD" && name[|name| - 1] in "fF"
  {
    var n := |name|;
    if n >= 4 {
      var l := Lower(name);
      assert l[n - 4..] == [l[n - 4], l[n - 3], l[n - 2], l[n - 1]];
    }
  }

  /** A name that does not already contain ".pdf" gets exactly its base back once ".pdf" is
      appended and removed: ".pdf" cannot straddle the join because no proper suffix of it is a
      prefix of it. */
  lemma {:induction false} CompanyOfBaseWithExtension(base: string)
    requires !Occurs(base, Extension)
    ensures CompanyFromFilename(base + Extension) == base
    decreases |base|
  {
    var s := base + Extension;
    if base == [] {
      assert s[|Extension|..] == [];
    } else {
      assert s[..4] != Extension by {
        if |base| >= 4 {
          assert s[..4] == base[..4];
        } else {
          assert s[|base|] == '.';
        }
      }
      assert !Occurs(base[1..], Extension) by {
        assert !(|Extension| <= |base| && base[..4] == Extension);
      }
      CompanyOfBaseWithExtension(base[1..]);
      assert s[1..] == base[1..] + Extension;
      assert [s[0]] + base[1..] == base;
    }
  }

  /** The removal is case-sensitive: an upper-case extension makes the file a PDF but stays in
      its company name. */
  lemma UpperCaseExtensionKept()
    ensures IsPdfName("Report.PDF") && CompanyFromFilename("Report.PDF") == "Report.PDF"
  {
    IsPdfNameIff("Report.PDF");
    assert !Occurs("Report.PDF", Extension) by {
      NoPdfInReport();
    }
  }

  lemma NoPdfInReport()
    ensures !Occurs("Report.PDF", Extension)
  {
    var s := "Report.PDF";
    assert s[..4][0] != Extension[0];
    assert s[1..][..4][0] != Extension[0];
    assert s[2..][..4][0] != Extension[0];
    assert s[3..][..4][0] != Extension[0];
    assert s[4..][..4][0] != Extension[0];
    assert s[5..][..4][0] != Extension[0];
    assert s[6..][..4][1] != Extension[1];
    assert s[6..][1..] == s[7..];
  }

  /** Every occurrence goes, not only the extension at the end. */
  lemma EveryOccurrenceRemoved()
    ensures CompanyFromFilename("a.pdf.pdf") == "a"
  {
    var s := "a.pdf.pdf";
    assert s[..4][0] != Extension[0];
    assert s[1..] == ".pdf.pdf";
    assert s[1..][..4] == Extension;
    assert s[1..][4..] == Extension;
    assert Extension[4..] == [];
  }
}
