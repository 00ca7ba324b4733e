/** The file-name filter applied to uploaded files (`allowed_file`). */
module Upload {
  import opened Wrappers
  import opened Strings

  /** `i` is the position of the last `.` in `filename`. */
  ghost predicate IsLastDot(filename: string, i: int) {
    0 <= i < |filename| && filename[i] == '.' && forall j :: i < j < |filename| ==> filename[j] != '.'
  }

  /**
   * A name is accepted when it contains a `.` and the text after its last `.`,
   * lower-cased, is one of the configured extensions.
   */
  function AllowedFile(filename: string, allowedExtensions: set<string>): (ok: bool)
    ensures ok ==> '.' in filename
  {
    match LastIndexOf(filename, '.')
    case None => false
    case Some(i) => Lower(filename[i + 1..]) in allowedExtensions
  }

  /** Acceptance stated without `rfind`: some last dot is followed by an allowed extension. */
  lemma AllowedFileCharacterized(filename: string, allowedExtensions: set<string>)
    ensures AllowedFile(filename, allowedExtensions) <==>
              exists i :: IsLastDot(filename, i) && Lower(filename[i + 1..]) in allowedExtensions
  {
    match LastIndexOf(filename, '.')
    case None =>
    case Some(i) =>
      assert IsLastDot(filename, i);
      forall j | IsLastDot(filename, j) ensures j == i {
        LastIndexOfAt(filename, '.', j);
      }
  }

  /** For `stem.ext` with a dot-free extension, only the lower-cased extension decides. */
  lemma AllowedFileByExtension(stem: string, ext: string, allowedExtensions: set<string>)
    requires '.' !in ext
    ensures AllowedFile(stem + "." + ext, allowedExtensions) <==> Lower(ext) in allowedExtensions
  {
    var name := stem + "." + ext;
    assert name[|stem| + 1..] == ext;
    forall j | |stem| < j < |name| ensures name[j] != '.' {
      assert name[j] == ext[j - |stem| - 1];
    }
    LastIndexOfAt(name, '.', |stem|);
  }

  /** Names that agree once lower-cased are accepted or refused together. */
  lemma AllowedFileIgnoresCase(f: string, g: string, allowedExtensions: set<string>)
    requires Lower(f) == Lower(g)
    ensures AllowedFile(f, allowedExtensions) == AllowedFile(g, allowedExtensions)
  {
    assert |f| == |g|;
    forall i | 0 <= i < |f| ensures f[i] == '.' <==> g[i] == '.' {
      assert LowerChar(f[i]) == Lower(f)[i] == Lower(g)[i] == LowerChar(g[i]);
      LowerCharFacts(f[i]);
      LowerCharFacts(g[i]);
    }
    LastIndexOfSamePositions(f, g, '.');
    var r := LastIndexOf(f, '.');
    if r.Some? {
      LowerSuffix(f, r.value + 1);
      LowerSuffix(g, r.value + 1);
    }
  }
}
