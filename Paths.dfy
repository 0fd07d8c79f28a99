/**
  The output directory derived from the archive's resolved path
  (wad3xtract.c:78-91). The path is scanned backwards, from its
  terminating NUL down to its second character: a '.' met first is
  replaced by '/' and the path is cut after it ("x/foo.wad" becomes
  "x/foo/"); a '/' met first means the file name has no extension, and
  "_wad/" is appended ("x.d/foo" becomes "x.d/foo_wad/"). With neither,
  the path is kept as it is.
 */
module Paths {

  predicate IsMark(ch: char) {
    ch == '/' || ch == '.'
  }

  /** The last position among 1 .. k-1 of p that holds a '/' or a '.', or 0 when none does. */
  function LastMark(p: string, k: nat): (i: nat)
    requires k <= |p|
    ensures i == 0 || (i < k && IsMark(p[i]))
    ensures forall j | i < j < k :: !IsMark(p[j])
  {
    if k <= 1 then 0
    else if IsMark(p[k - 1]) then k - 1
    else LastMark(p, k - 1)
  }

  function OutputDir(p: string): (r: string)
    ensures (forall j | 0 < j < |p| :: !IsMark(p[j])) ==> r == p
    ensures forall i | 0 < i < |p| && p[i] == '/' && (forall j | i < j < |p| :: !IsMark(p[j])) ::
              r == p + "_wad/"
    ensures forall i | 0 < i < |p| && p[i] == '.' && (forall j | i < j < |p| :: !IsMark(p[j])) ::
              r == p[..i] + "/"
  {
    var i := LastMark(p, |p|);
    if i == 0 then p
    else if p[i] == '/' then p + "_wad/"
    else p[..i] + "/"
  }

  /**
    The scan itself, over the path and its terminating NUL, changing at
    most one character or appending one suffix.
   */
  method DeriveOutputDir(p: string) returns (r: string)
    ensures r == OutputDir(p)
  {
    var buf := p + ['\0'];
    r := p;
    var i := |p|;
    while i > 0
      invariant 0 <= i <= |p|
      invariant forall j | i < j < |p| :: !IsMark(p[j])
    {
      if buf[i] == '/' {
        r := p + "_wad/";
        return;
      }
      if buf[i] == '.' {
        r := buf[..i] + "/";
        assert buf[..i] == p[..i];
        return;
      }
      i := i - 1;
    }
  }

  /** An archive with an extension gets the directory named after it. */
  lemma ExtensionReplaced()
    ensures OutputDir("/data/halflife.wad") == "/data/halflife/"
  {
    var p := "/data/halflife.wad";
    assert p[14] == '.';
    assert forall j | 14 < j < |p| :: !IsMark(p[j]);
    assert p[..14] == "/data/halflife";
  }

  /** An archive without an extension gets "_wad/" appended, also below a directory with a dot. */
  lemma NoExtensionSuffixed()
    ensures OutputDir("/data.d/halflife") == "/data.d/halflife_wad/"
  {
    var p := "/data.d/halflife";
    assert p[7] == '/';
    assert forall j | 7 < j < |p| :: !IsMark(p[j]);
  }
}
