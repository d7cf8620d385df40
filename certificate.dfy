/** The two URL templates of the scraper: the product's catalog page and the
    certificate PDF of one lot. */
module Certificate {

  const CatalogPrefix := "https://store.usp.org/product/"
  const CertificatePrefix := "https://static.usp.org/pdf/EN/referenceStandards/certificates/"

  /** The catalog page loaded for a product code. */
  function ProductPageUrl(keyword: string): (r: string)
    ensures |r| == |CatalogPrefix| + |keyword|
    ensures r[..|CatalogPrefix|] == CatalogPrefix && r[|CatalogPrefix|..] == keyword
  {
    CatalogPrefix + keyword
  }

  /** Different product codes load different catalog pages. */
  lemma ProductPageUrlInjective(k1: string, k2: string)
    requires ProductPageUrl(k1) == ProductPageUrl(k2)
    ensures k1 == k2
  {
    assert k1 == ProductPageUrl(k1)[|CatalogPrefix|..] == k2;
  }

  /** The certificate link of one lot: the fixed prefix, the product code, '-',
      the cleaned lot number and ".pdf". */
  function CertificateUrl(keyword: string, lot: string): (r: string)
    ensures |r| == |CertificatePrefix| + |keyword| + |lot| + 5
    ensures r[..|CertificatePrefix|] == CertificatePrefix
    ensures r[|CertificatePrefix|..|CertificatePrefix| + |keyword|] == keyword
    ensures r[|CertificatePrefix| + |keyword|] == '-'
    ensures r[|CertificatePrefix| + |keyword| + 1..|r| - 4] == lot
    ensures r[|r| - 4..] == ".pdf"
  {
    var r := CertificatePrefix + keyword + "-" + lot + ".pdf";
    assert r[|CertificatePrefix| + |keyword| + 1..|r| - 4] == lot;
    r
  }

  /** For one product code, different lots get different links. */
  lemma CertificateUrlSeparatesLots(keyword: string, lot1: string, lot2: string)
    requires CertificateUrl(keyword, lot1) == CertificateUrl(keyword, lot2)
    ensures lot1 == lot2
  {
    var r := CertificateUrl(keyword, lot1);
    assert lot1 == r[|CertificatePrefix| + |keyword| + 1..|r| - 4] == lot2;
  }

  /** When product codes contain no '-', the link determines both the code and the lot. */
  lemma CertificateUrlInjective(k1: string, l1: string, k2: string, l2: string)
    requires '-' !in k1 && '-' !in k2
    requires CertificateUrl(k1, l1) == CertificateUrl(k2, l2)
    ensures k1 == k2 && l1 == l2
  {
    var r := CertificateUrl(k1, l1);
    var p := |CertificatePrefix|;
    assert |k1| == |k2|;
    assert k1 == r[p..p + |k1|] == k2;
    CertificateUrlSeparatesLots(k1, l1, l2);
  }

  /** Without that condition the link is ambiguous: a '-' can belong to either part. */
  lemma CertificateUrlAmbiguous()
    ensures CertificateUrl("A-B", "C") == CertificateUrl("A", "B-C")
  {
  }
}
