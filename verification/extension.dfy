/** The extension filter of the driver (`internals.hasKnownExtension`): a
    path is lintable when the text after its last `.` is one of five
    Markdown extensions, compared case-sensitively. */
module Extension {

  import opened Text

  /** The allow-list, in the order the source lists it. */
  const KnownExtensions: seq<string> := ["markdown", "mdown", "mkdn", "mkd", "md"]

  /** `fname.split('.').pop()`: the text after the last `.`, or the whole
      name when it holds no `.`. */
  function ExtensionToken(fname: string): string
  {
    var parts := Split(fname, '.');
    parts[|parts| - 1]
  }

  /** The token is a dot-free suffix of the name, and it is either the whole
      name or what follows a dot. */
  lemma TokenShape(fname: string)
    ensures '.' !in ExtensionToken(fname)
    ensures SuffixAfter(fname, ExtensionToken(fname), '.')
  {
    SplitParts(fname, '.');
    SplitLast(fname, '.');
  }

  predicate HasKnownExtension(fname: string)
  {
    ExtensionToken(fname) in KnownExtensions
  }

  /** The token is pinned down by the last dot: the text after it, or the
      whole name when there is no dot. */
  lemma TokenAfterLastDot(fname: string, i: int)
    requires 0 <= i < |fname| && fname[i] == '.' && '.' !in fname[i + 1..]
    ensures ExtensionToken(fname) == fname[i + 1..]
  {
    TokenShape(fname);
  }

  lemma TokenWithoutDot(fname: string)
    requires '.' !in fname
    ensures ExtensionToken(fname) == fname
  {
    TokenShape(fname);
  }

  /** No known extension contains a dot. */
  lemma KnownExtensionsDotFree()
    ensures forall e :: e in KnownExtensions ==> '.' !in e
  {
  }

  /** An independent reading of the filter: a name passes exactly when it is
      itself one of the extensions, or when some `.` in it is followed by one
      of the extensions up to the end of the name. */
  lemma KnownExtensionIff(fname: string)
    ensures HasKnownExtension(fname) <==>
      (fname in KnownExtensions
       || exists i :: 0 <= i < |fname| && fname[i] == '.' && fname[i + 1..] in KnownExtensions)
  {
    var ext := ExtensionToken(fname);
    TokenShape(fname);
    KnownExtensionsDotFree();
    if HasKnownExtension(fname) && |ext| < |fname| {
      var i := |fname| - |ext| - 1;
      assert fname[i] == '.' && fname[i + 1..] == ext;
    }
    if fname in KnownExtensions {
      TokenWithoutDot(fname);
    }
    if i :| 0 <= i < |fname| && fname[i] == '.' && fname[i + 1..] in KnownExtensions {
      TokenAfterLastDot(fname, i);
    }
  }

  /** Any name that ends in `.` and a known extension passes, whatever
      comes before, dots included. */
  lemma KnownSuffixPasses(stem: string, ext: string)
    requires ext in KnownExtensions
    ensures HasKnownExtension(stem + "." + ext)
  {
    var fname := stem + "." + ext;
    KnownExtensionsDotFree();
    assert fname[|stem|] == '.' && fname[|stem| + 1..] == ext;
    TokenAfterLastDot(fname, |stem|);
  }

  /** A bare extension with no name in front passes too. */
  lemma BareExtensionPasses(ext: string)
    requires ext in KnownExtensions
    ensures HasKnownExtension(ext)
  {
    KnownExtensionsDotFree();
    TokenWithoutDot(ext);
  }

  /** Any other last extension is rejected, whatever comes before it. */
  lemma OtherSuffixRejected(stem: string, ext: string)
    requires '.' !in ext && ext !in KnownExtensions
    ensures !HasKnownExtension(stem + "." + ext)
  {
    var fname := stem + "." + ext;
    assert fname[|stem|] == '.' && fname[|stem| + 1..] == ext;
    TokenAfterLastDot(fname, |stem|);
  }

  /** The match is case-sensitive: `.MD` is not `.md`. */
  lemma UpperCaseRejected(stem: string)
    ensures !HasKnownExtension(stem + ".MD")
  {
    assert stem + ".MD" == stem + "." + "MD";
    OtherSuffixRejected(stem, "MD");
  }

  /** Only the last extension counts: `.md.txt` is rejected. */
  lemma LastExtensionDecides(stem: string)
    ensures !HasKnownExtension(stem + ".md.txt")
  {
    assert stem + ".md.txt" == (stem + ".md") + "." + "txt";
    OtherSuffixRejected(stem + ".md", "txt");
  }
}
