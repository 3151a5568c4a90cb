/** The address of a stored product image, built from the API base address
    and the file name. */
module ProductImageService {

  /** The base address the HTTP client is configured with. */
  const ConfiguredBase: string := "https://daeshin.duckdns.org/"

  /** The path under which the backend serves image files. */
  const FilePath: string := "/api/v1/product-images/file/"

  predicate EndsWithSlash(s: string)
  {
    |s| > 0 && s[|s| - 1] == '/'
  }

  /** The base with one trailing '/' cut off, if it has one. */
  function TrimmedBase(base: string): (b: string)
    ensures EndsWithSlash(base) ==> b + "/" == base
    ensures !EndsWithSlash(base) ==> b == base
  {
    if EndsWithSlash(base) then base[..|base| - 1] else base
  }

  /** `getImageUrl(filename)` for the base `base`: the trimmed base, the file
      path and the file name, inserted verbatim. */
  function ImageUrl(base: string, filename: string): (url: string)
    ensures |url| == |TrimmedBase(base)| + |FilePath| + |filename|
    ensures url[..|TrimmedBase(base)|] == TrimmedBase(base)
    ensures url[|TrimmedBase(base)|..|url| - |filename|] == FilePath
    ensures url[|url| - |filename|..] == filename
  {
    TrimmedBase(base) + FilePath + filename
  }

  /** With the configured base the address is the host followed directly by
      the file path. */
  lemma ConfiguredImageUrl(filename: string)
    ensures ImageUrl(ConfiguredBase, filename)
         == "https://daeshin.duckdns.org/api/v1/product-images/file/" + filename
  {
    var host := "https://daeshin.duckdns.org";
    assert ConfiguredBase == host + "/";
    assert TrimmedBase(ConfiguredBase) == host;
    assert host + FilePath == "https://daeshin.duckdns.org/api/v1/product-images/file/";
  }

  /** Different file names give different addresses for one base, and the
      address determines the base up to one trailing '/'. */
  lemma ImageUrlInjective(b1: string, f1: string, b2: string, f2: string)
    requires |f1| == |f2| || b1 == b2
    requires ImageUrl(b1, f1) == ImageUrl(b2, f2)
    ensures f1 == f2
    ensures TrimmedBase(b1) == TrimmedBase(b2)
  {
    var u := ImageUrl(b1, f1);
    assert f1 == u[|u| - |f1|..];
    assert f2 == u[|u| - |f2|..];
    assert TrimmedBase(b1) == u[..|TrimmedBase(b1)|];
    assert TrimmedBase(b2) == u[..|TrimmedBase(b2)|];
  }

  /** Across different bases and file-name lengths the address does not
      determine the file name: the path can sit in the base or in the name,
      so base 'h' with name 'a/api/v1/product-images/file/z' and base
      'h/api/v1/product-images/file/a' with name 'z' give one address. */
  lemma PathInNameCollides(base: string, a: string, z: string)
    requires !EndsWithSlash(base) && a != [] && !EndsWithSlash(a)
    ensures a + FilePath + z != z
    ensures ImageUrl(base, a + FilePath + z) == ImageUrl(base + FilePath + a, z)
  {
    var b := base + FilePath + a;
    assert b[|b| - 1] == a[|a| - 1];
    assert TrimmedBase(b) == b;
    assert |a + FilePath + z| > |z|;
    calc {
      ImageUrl(base, a + FilePath + z);
      base + FilePath + (a + FilePath + z);
      { assert base + FilePath + (a + FilePath + z) == (base + FilePath + a) + FilePath + z; }
      b + FilePath + z;
      ImageUrl(b, z);
    }
  }

  /** Only one '/' is cut: a base ending in '//' keeps one of them, and the
      address has two slashes in a row before 'api'. */
  lemma DoubleSlashKept(base: string, filename: string)
    requires |base| >= 2 && base[|base| - 2..] == "//"
    ensures var url := ImageUrl(base, filename);
      url[|base| - 2..|base| + 2] == "//ap"
  {
    var url := ImageUrl(base, filename);
    var b := TrimmedBase(base);
    assert |b| == |base| - 1;
    assert url[|base| - 2] == b[|base| - 2] == base[|base| - 2] == '/';
    assert url[|base| - 1] == FilePath[0] == '/';
    assert url[|base|] == FilePath[1] == 'a';
    assert url[|base| + 1] == FilePath[2] == 'p';
  }
}
