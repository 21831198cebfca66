/** Validators and path helpers: the file-name sanitizer, the PDF check and the
    shape of a generated file identifier. */
module FileUtils {
  import opened Wrappers

  /** A byte of file content, and a file's whole content. */
  type byte = bv8
  type Bytes = seq<byte>

  /** The only directory separator modelled (POSIX). */
  const Sep: char := '/'

  /** The signature every accepted PDF starts with: the bytes of "%PDF-". */
  const PdfMagic: Bytes := [0x25, 0x50, 0x44, 0x46, 0x2D]

  /** How many leading bytes the PDF check reads before testing the signature. */
  const HeaderReadSize: nat := 8

  /** The extension both the route and the PDF check demand, after lower-casing. */
  const PdfExtension: string := ".pdf"

  predicate StartsWith<T(==)>(s: seq<T>, prefix: seq<T>)
  {
    |prefix| <= |s| && s[..|prefix|] == prefix
  }

  predicate EndsWith<T(==)>(s: seq<T>, suffix: seq<T>)
  {
    |suffix| <= |s| && s[|s| - |suffix|..] == suffix
  }

  /** True when no character of `s` is a directory separator. */
  predicate NoSep(s: string)
  {
    forall i :: 0 <= i < |s| ==> s[i] != Sep
  }

  /** `sanitize_filename`, i.e. `os.path.basename` on POSIX: everything after the
      last '/'. The contract characterises the result completely: it is the
      longest suffix of `name` that holds no separator (see `SanitizeUnique`). */
  function SanitizeFilename(name: string): (base: string)
    ensures |base| <= |name| && base == name[|name| - |base|..]
    ensures NoSep(base)
    ensures |base| < |name| ==> name[|name| - |base| - 1] == Sep
    decreases |name|
  {
    if |name| == 0 then ""
    else if name[|name| - 1] == Sep then ""
    else
      var init := name[..|name| - 1];
      var rest := SanitizeFilename(init);
      var base := rest + [name[|name| - 1]];
      assert base == name[|name| - |base|..] by {
        assert init[|init| - |rest|..] == name[|name| - |base|..|name| - 1];
      }
      assert |rest| < |init| ==> name[|name| - |base| - 1] == init[|init| - |rest| - 1];
      base
  }

  /** `posixpath.basename` as the library computes it: find the last separator
      with a backwards scan (`rfind`) and keep the text after it. */
  method Basename(name: string) returns (base: string)
    ensures base == SanitizeFilename(name)
  {
    var i := |name|;
    while i > 0 && name[i - 1] != Sep
      invariant 0 <= i <= |name|
      invariant forall k :: i <= k < |name| ==> name[k] != Sep
      decreases i
    {
      i := i - 1;
    }
    base := name[i..];
    SanitizeUnique(name, base);
  }

  /** Any separator-free suffix that is either all of `name` or starts right
      after a separator is the sanitized name: the contract of
      `SanitizeFilename` has exactly one solution. */
  lemma SanitizeUnique(name: string, b: string)
    requires |b| <= |name| && b == name[|name| - |b|..]
    requires NoSep(b)
    requires |b| < |name| ==> name[|name| - |b| - 1] == Sep
    ensures b == SanitizeFilename(name)
  {
  }

  /** A name without separators is left unchanged. */
  lemma SanitizeKeepsPlainName(name: string)
    requires NoSep(name)
    ensures SanitizeFilename(name) == name
  {
    SanitizeUnique(name, name);
  }

  /** Sanitizing twice is sanitizing once. */
  lemma SanitizeIdempotent(name: string)
    ensures SanitizeFilename(SanitizeFilename(name)) == SanitizeFilename(name)
  {
    SanitizeKeepsPlainName(SanitizeFilename(name));
  }

  /** A name ending in a separator (a directory path) sanitizes to the empty
      string rather than failing. */
  lemma SanitizeTrailingSep(name: string)
    requires |name| > 0 && name[|name| - 1] == Sep
    ensures SanitizeFilename(name) == ""
  {
  }

  /** Whatever precedes the last separator does not matter. */
  lemma SanitizeDropsDirectory(dir: string, name: string)
    requires NoSep(name)
    ensures SanitizeFilename(dir + [Sep] + name) == name
  {
    var s := dir + [Sep] + name;
    assert s[|s| - |name|..] == name;
    assert s[|s| - |name| - 1] == Sep;
    SanitizeUnique(s, name);
  }

  /** ASCII lower-casing of one character (`str.lower` on ASCII text). */
  function LowerChar(c: char): char
  {
    if 'A' <= c <= 'Z' then (c as int + 32) as char else c
  }

  /** `str.lower` on ASCII text, character by character. */
  function Lower(s: string): string
    decreases |s|
  {
    if |s| == 0 then [] else Lower(s[..|s| - 1]) + [LowerChar(s[|s| - 1])]
  }

  /** Lower-casing keeps the length and maps each character on its own. */
  lemma {:induction false} LowerPointwise(s: string)
    ensures |Lower(s)| == |s|
    ensures forall i :: 0 <= i < |s| ==> Lower(s)[i] == LowerChar(s[i])
    decreases |s|
  {
    if |s| > 0 {
      LowerPointwise(s[..|s| - 1]);
    }
  }

  /** `path.lower().endswith('.pdf')`. */
  predicate HasPdfExtension(path: string)
  {
    EndsWith(Lower(path), PdfExtension)
  }

  /** The extension test is case-insensitive: it looks at the last four
      characters only, and each letter may be in either case. */
  lemma PdfExtensionCaseInsensitive(path: string)
    ensures HasPdfExtension(path) <==>
      && |path| >= 4
      && path[|path| - 4] == '.'
      && path[|path| - 3] in {'p', 'P'}
      && path[|path| - 2] in {'d', 'D'}
      && path[|path| - 1] in {'f', 'F'}
  {
    var l := Lower(path);
    LowerPointwise(path);
    if |path| >= 4 {
      var n := |path|;
      assert l[n - 4..] == [l[n - 4], l[n - 3], l[n - 2], l[n - 1]];
      assert PdfExtension == ['.', 'p', 'd', 'f'];
    }
  }

  /** A name built by appending ".pdf" always passes the extension test,
      whatever comes before it. */
  lemma PdfSuffixHasPdfExtension(stem: string)
    ensures HasPdfExtension(stem + PdfExtension)
  {
    PdfExtensionCaseInsensitive(stem + PdfExtension);
  }

  /** The first `n` bytes of `content`, or all of a shorter content. */
  function FirstBytes(content: Bytes, n: nat): Bytes
  {
    if |content| <= n then content else content[..n]
  }

  /** `f.read(8)`: at most the first eight bytes. */
  function ReadHeader(content: Bytes): Bytes
  {
    FirstBytes(content, HeaderReadSize)
  }

  /** The reference meaning of "carries the PDF signature", stated on the whole
      content rather than on the eight-byte header that is actually read. */
  predicate HasPdfSignature(content: Bytes)
  {
    |content| >= |PdfMagic| && content[..|PdfMagic|] == PdfMagic
  }

  /** `is_pdf_file`. The file is given as what reading `path` produces: `None`
      when it is missing or cannot be read, which yields false, not an error.
      The extension is tested before the file is opened. */
  function IsPdfFile(path: string, file: Option<Bytes>): (ok: bool)
    ensures ok <==> HasPdfExtension(path) && file.Some? && HasPdfSignature(file.value)
  {
    if !HasPdfExtension(path) then false
    else match file
      case None => false
      case Some(content) => StartsWith(ReadHeader(content), PdfMagic)
  }

  /** Only the leading bytes decide: contents that agree on their first five
      bytes get the same verdict. */
  lemma SamePrefixSameVerdict(path: string, a: Bytes, b: Bytes)
    requires FirstBytes(a, |PdfMagic|) == FirstBytes(b, |PdfMagic|)
    ensures IsPdfFile(path, Some(a)) == IsPdfFile(path, Some(b))
  {
    if |a| >= |PdfMagic| {
      assert |b| >= |PdfMagic|;
    }
  }

  predicate IsLowerHexDigit(c: char)
  {
    '0' <= c <= '9' || 'a' <= c <= 'f'
  }

  /** The text `str(uuid.uuid4())` produces: five lower-case hex groups of
      8-4-4-4-12 digits joined by '-', version digit 4, variant digit 8, 9, a
      or b. The identifier itself is a parameter of the model; this is the
      shape every generated one has. */
  predicate IsFileId(id: string)
  {
    && |id| == 36
    && (forall i :: 0 <= i < |id| ==>
          if i == 8 || i == 13 || i == 18 || i == 23 then id[i] == '-' else IsLowerHexDigit(id[i]))
    && id[14] == '4'
    && id[19] in {'8', '9', 'a', 'b'}
  }

  /** A generated identifier passes through the sanitizer unchanged. */
  lemma FileIdIsSanitized(id: string)
    requires IsFileId(id)
    ensures NoSep(id)
    ensures SanitizeFilename(id) == id
  {
    assert NoSep(id) by {
      forall i | 0 <= i < |id|
        ensures id[i] != Sep
      {
        if !(i == 8 || i == 13 || i == 18 || i == 23) {
          assert IsLowerHexDigit(id[i]);
        }
      }
    }
    SanitizeKeepsPlainName(id);
  }
}
