/**
  Paths as the exporter stores them in the map file and in the asset ledger:
  backslashes turned into '/', then everything up to and including the last
  "/SOMA/" (the game's data root) removed, so the stored path is relative to
  the game's data directory.
*/
module Paths {

  import opened Options
  import opened Seqs

  /** The data-root marker of a path with forward slashes. */
  const Marker := "/SOMA/"

  /** The same marker in a Windows path, as used to find the data root on disk. */
  const BackMarker := "\\SOMA\\"

  predicate OccursAt(s: string, pat: string, k: int) {
    0 <= k && k + |pat| <= |s| && s[k..k + |pat|] == pat
  }

  predicate Contains(s: string, pat: string) {
    exists k :: 0 <= k <= |s| - |pat| && OccursAt(s, pat, k)
  }

  predicate EndsWith(s: string, suffix: string) {
    |suffix| <= |s| && s[|s| - |suffix|..] == suffix
  }

  lemma OccursAtTail(s: string, pat: string, k: int)
    requires 1 <= k && s != []
    ensures OccursAt(s, pat, k) <==> OccursAt(s[1..], pat, k - 1)
  {
    if k + |pat| <= |s| {
      SliceOfSuffix(s, 1, k - 1, k - 1 + |pat|);
    }
  }

  lemma SliceOfSuffix(s: string, n: nat, a: nat, b: nat)
    requires n <= |s| && a <= b <= |s| - n
    ensures s[n..][a..b] == s[n + a..n + b]
  {
    forall i | 0 <= i < b - a ensures s[n..][a..b][i] == s[n + a..n + b][i] {
      assert s[n..][a..b][i] == s[n..][a + i] == s[n + a + i];
    }
  }

  /** re.sub(r'\\', '/', s): every backslash becomes a forward slash. */
  function Slashes(s: string): (r: string)
    ensures |r| == |s| && '\\' !in r
    ensures forall k :: 0 <= k < |s| && s[k] != '\\' ==> r[k] == s[k]
  {
    seq(|s|, k requires 0 <= k < |s| => if s[k] == '\\' then '/' else s[k])
  }

  /**
    The length of the prefix that re.sub(r'.*\/SOMA\/', '', s) removes: the
    greedy '.*' runs to the LAST occurrence of the marker, and nothing is
    removed when there is none.
  */
  function SomaCut(s: string): (n: nat)
    ensures n <= |s|
    decreases |s|
  {
    if s == [] then 0
    else if Contains(s[1..], Marker) then 1 + SomaCut(s[1..])
    else if OccursAt(s, Marker, 0) then |Marker|
    else 0
  }

  /** The cut ends right after the last marker, and is zero exactly when there is none. */
  lemma {:induction false} SomaCutMeaning(s: string)
    ensures SomaCut(s) == 0 <==> !Contains(s, Marker)
    ensures SomaCut(s) > 0 ==> OccursAt(s, Marker, SomaCut(s) - |Marker|)
    ensures forall k :: OccursAt(s, Marker, k) ==> k + |Marker| <= SomaCut(s)
    decreases |s|
  {
    if s == [] {
    } else if Contains(s[1..], Marker) {
      SomaCutMeaning(s[1..]);
      var m := SomaCut(s[1..]);
      OccursAtTail(s, Marker, m + 1 - |Marker|);
      forall k | OccursAt(s, Marker, k) ensures k + |Marker| <= m + 1 {
        if k >= 1 { OccursAtTail(s, Marker, k); }
      }
    } else {
      forall k | 1 <= k ensures !OccursAt(s, Marker, k) {
        OccursAtTail(s, Marker, k);
      }
    }
  }

  /** re.sub(r'.*\/SOMA\/', '', s) */
  function StripSoma(s: string): string {
    s[SomaCut(s)..]
  }

  /** The stored short path of an export path (the os.path.normpath step is not modelled). */
  function ShortPath(path: string): string {
    StripSoma(Slashes(path))
  }

  /**
    What stripping guarantees: the short path is a tail of the input, holds no
    data-root marker, is the whole input when the input has none, and otherwise
    starts right after the input's last marker.
  */
  lemma StripSomaMeaning(s: string)
    ensures var r := StripSoma(s);
      && r == s[|s| - |r|..]
      && !Contains(r, Marker)
      && (!Contains(s, Marker) ==> r == s)
      && (Contains(s, Marker) ==> OccursAt(s, Marker, |s| - |r| - |Marker|))
      && (forall k :: OccursAt(s, Marker, k) ==> k + |Marker| <= |s| - |r|)
  {
    SomaCutMeaning(s);
    var n := SomaCut(s);
    var r := s[n..];
    forall j | 0 <= j <= |r| - |Marker| ensures OccursAt(r, Marker, j) ==> OccursAt(s, Marker, n + j) {
      SliceOfSuffix(s, n, j, j + |Marker|);
    }
  }

  /** A stored short path has forward slashes only and no data-root marker. */
  lemma ShortPathMeaning(path: string)
    ensures '\\' !in ShortPath(path)
    ensures !Contains(ShortPath(path), Marker)
    ensures !Contains(Slashes(path), Marker) ==> ShortPath(path) == Slashes(path)
  {
    StripSomaMeaning(Slashes(path));
    var s := Slashes(path);
    var r := ShortPath(path);
    forall k | 0 <= k < |r| ensures r[k] != '\\' {
      assert r[k] == s[SomaCut(s) + k];
    }
  }

  /**
    A tail without '/' cannot hold or complete a marker (which ends with '/'),
    so it does not move the cut.
  */
  lemma SomaCutAppend(y: string, e: string)
    requires '/' !in e
    ensures SomaCut(y + e) == SomaCut(y)
  {
    var s := y + e;
    forall k | 0 <= k && |y| < k + |Marker| <= |s| ensures !OccursAt(s, Marker, k) {
      assert s[k + 5] == e[k + 5 - |y|];
      assert s[k..k + 6][5] == s[k + 5];
    }
    forall k | 0 <= k && k + |Marker| <= |y| ensures OccursAt(s, Marker, k) <==> OccursAt(y, Marker, k) {
      assert s[k..k + 6] == y[k..k + 6];
    }
    assert forall k :: OccursAt(s, Marker, k) <==> OccursAt(y, Marker, k);
    SomaCutUnique(s, y);
  }

  /** The cut depends only on where the marker occurs. */
  lemma SomaCutUnique(s: string, t: string)
    requires forall k :: OccursAt(s, Marker, k) <==> OccursAt(t, Marker, k)
    ensures SomaCut(s) == SomaCut(t)
  {
    SomaCutNoFurther(s, t);
    SomaCutNoFurther(t, s);
  }

  /** The cut of s ends at a marker of s, hence of t, which the cut of t covers. */
  lemma SomaCutNoFurther(s: string, t: string)
    requires forall k :: OccursAt(s, Marker, k) <==> OccursAt(t, Marker, k)
    ensures SomaCut(s) <= SomaCut(t)
  {
    SomaCutMeaning(s);
    var a := SomaCut(s);
    if a > 0 {
      assert OccursAt(t, Marker, a - |Marker|);
      SomaCutMeaning(t);
    }
  }

  /** The first occurrence of a pattern, if any. */
  function Find(s: string, pat: string): (r: Option<nat>)
    ensures r.Some? ==> OccursAt(s, pat, r.value) && forall j :: 0 <= j < r.value ==> !OccursAt(s, pat, j)
    ensures r.None? ==> !Contains(s, pat)
    decreases |s|
  {
    if |s| < |pat| then None
    else if OccursAt(s, pat, 0) then Some(0)
    else
      var r := Find(s[1..], pat);
      forall j | 1 <= j <= |s| - |pat| ensures OccursAt(s, pat, j) <==> OccursAt(s[1..], pat, j - 1) {
        OccursAtTail(s, pat, j);
      }
      if r.None? then None else Some(r.value + 1)
  }

  /**
    The directory prefix delete_by_shortname puts in front of a short path:
    re.sub(r'\\SOMA\\.*', '', exportPath) cuts the export path at the FIRST
    "\SOMA\" and the marker is put back; without a marker the prefix is empty.
  */
  function SomaRoot(exportPath: string): (root: string)
    ensures !Contains(exportPath, BackMarker) ==> root == ""
    ensures Contains(exportPath, BackMarker) ==>
      |root| <= |exportPath| && EndsWith(root, BackMarker) && exportPath[..|root|] == root
      && forall j :: 0 <= j < |root| - |BackMarker| ==> !OccursAt(exportPath, BackMarker, j)
  {
    match Find(exportPath, BackMarker)
    case None => ""
    case Some(k) => exportPath[..k] + BackMarker
  }

  /** re.sub(r'ent$', 'dae', path): an entity file's path turned into its mesh's path. */
  function EntToDae(path: string): (r: string)
    ensures |r| == |path|
    ensures EndsWith(path, "ent") ==> EndsWith(r, "dae") && r[..|r| - 3] == path[..|path| - 3]
    ensures !EndsWith(path, "ent") ==> r == path
  {
    if EndsWith(path, "ent") then path[..|path| - 3] + "dae" else path
  }

  /** The path of a mesh's exported file: <export dir>/<name>/<name><extension>. */
  function AssetPath(exportPath: string, meshName: string, extension: string): string {
    exportPath + "/" + meshName + "/" + meshName + extension
  }

  lemma SlashesAppend(a: string, b: string)
    requires '\\' !in b
    ensures Slashes(a + b) == Slashes(a) + b
  {
  }

  /** A tail without '/' survives stripping unchanged. */
  lemma StripSomaAppend(y: string, e: string)
    requires '/' !in e
    ensures StripSoma(y + e) == StripSoma(y) + e
  {
    SomaCutAppend(y, e);
    var n := SomaCut(y);
    assert (y + e)[n..] == y[n..] + e;
  }

  /**
    An entity is indexed in the map by its .ent path and in the ledger by its
    .dae path; turning the stored .ent short path back into .dae gives exactly
    the ledger's key for the same mesh.
  */
  lemma EntityIndexPathMeetsLedgerKey(exportPath: string, meshName: string)
    ensures EntToDae(ShortPath(AssetPath(exportPath, meshName, ".ent")))
         == ShortPath(AssetPath(exportPath, meshName, ".dae"))
  {
    var x := exportPath + "/" + meshName + "/" + meshName;
    ExtensionSurvives(x, ".ent");
    ExtensionSurvives(x, ".dae");
    EntToDaeSwapsExtension(StripSoma(Slashes(x)));
  }

  lemma ExtensionSurvives(x: string, e: string)
    requires '/' !in e && '\\' !in e
    ensures ShortPath(x + e) == ShortPath(x) + e
  {
    SlashesAppend(x, e);
    StripSomaAppend(Slashes(x), e);
  }

  lemma EntToDaeSwapsExtension(z: string)
    ensures EntToDae(z + ".ent") == z + ".dae"
  {
    var p := z + ".ent";
    assert p[|p| - 3..] == "ent";
    assert p[..|p| - 3] == z + ".";
  }

  /**
    re.sub(r'.dae', '.msh', path) AS WRITTEN: the unescaped '.' matches any
    character, and every occurrence anywhere in the path is replaced, scanning
    left to right without overlaps.
  */
  function MshPathAsWritten(path: string): (r: string)
    decreases |path|
  {
    if |path| < 4 then path
    else if path[1..4] == "dae" then ".msh" + MshPathAsWritten(path[4..])
    else [path[0]] + MshPathAsWritten(path[1..])
  }

  /** The evidently intended rewrite: only a trailing ".dae" extension becomes ".msh". */
  function MshPath(path: string): (r: string)
    ensures |r| == |path|
    ensures EndsWith(path, ".dae") ==> EndsWith(r, ".msh") && r[..|r| - 4] == path[..|path| - 4]
    ensures !EndsWith(path, ".dae") ==> r == path
  {
    if EndsWith(path, ".dae") then path[..|path| - 4] + ".msh" else path
  }

  /** "dae" follows the character at position j, which the pattern r'.dae' then matches. */
  predicate DaeAt(p: string, j: int) {
    0 <= j && j + 4 <= |p| && p[j + 1..j + 4] == "dae"
  }

  /** Dropping the first character moves every match one place to the left. */
  lemma DaeAtShift(p: string, j: int)
    requires |p| > 0 && 0 <= j
    ensures DaeAt(p[1..], j) <==> DaeAt(p, j + 1)
  {
    if j + 5 <= |p| {
      assert p[1..][j + 1..j + 4] == p[j + 2..j + 5];
    }
  }

  /**
    The as-written rewrite replaces the FIRST match, wherever it is, and goes on
    after it: the character before "dae" is taken along even when it is not '.'.
  */
  lemma {:induction false} MshPathAsWrittenRewrites(p: string, k: nat)
    requires DaeAt(p, k)
    requires forall j :: 0 <= j < k ==> !DaeAt(p, j)
    ensures MshPathAsWritten(p) == p[..k] + ".msh" + MshPathAsWritten(p[k + 4..])
    decreases k
  {
    if k > 0 {
      var q := p[1..];
      DaeAtShift(p, k - 1);
      forall j | 0 <= j < k - 1 ensures !DaeAt(q, j) {
        DaeAtShift(p, j);
      }
      MshPathAsWrittenSkips(p);
      MshPathAsWrittenRewrites(q, k - 1);
      DropFirst(p, k);
      Regroup([p[0]], q[..k - 1], ".msh", MshPathAsWritten(q[k + 3..]));
    } else {
      assert p[..0] == [];
    }
  }

  /** Without a match at the front, the as-written rewrite keeps the first character. */
  lemma MshPathAsWrittenSkips(p: string)
    requires |p| > 0 && !DaeAt(p, 0)
    ensures MshPathAsWritten(p) == [p[0]] + MshPathAsWritten(p[1..])
  {
  }

  /** Slices of a path without its first character, against slices of the path. */
  lemma DropFirst(p: string, k: nat)
    requires 0 < k && k + 4 <= |p|
    ensures p[1..][..k - 1] == p[1..k] && p[1..][k + 3..] == p[k + 4..]
    ensures p[..k] == [p[0]] + p[1..][..k - 1]
  {
  }

  /**
    Whenever "dae" occurs inside a path before its last four characters, the
    as-written and intended rewrites disagree at the first such match: the
    as-written one puts ".msh" there, whatever character precedes "dae",
    '.' included, while the intended one keeps the path up to its extension.
  */
  lemma MshPathAsWrittenDiffers(p: string, k: nat)
    requires DaeAt(p, k) && k + 4 < |p|
    requires forall j :: 0 <= j < k ==> !DaeAt(p, j)
    ensures |MshPathAsWritten(p)| > k + 1 && MshPathAsWritten(p)[k] == '.' && MshPathAsWritten(p)[k + 1] == 'm'
    ensures MshPath(p)[k] == p[k] && MshPath(p)[k + 1] != 'm'
    ensures MshPathAsWritten(p) != MshPath(p)
  {
    MshPathAsWrittenRewrites(p, k);
    assert (p[..k] + ".msh" + MshPathAsWritten(p[k + 4..]))[k + 1] == 'm';
    assert p[k + 1] == p[k + 1..k + 4][0] == 'd';
    if EndsWith(p, ".dae") {
      var c := p[..|p| - 4] + ".msh";
      assert MshPath(p) == c;
      assert c[k + 1] == p[k + 1];
    }
  }

  /** A path with a match has a first match. */
  lemma {:induction false} FirstDaeAt(p: string, j: nat)
    requires DaeAt(p, j)
    ensures exists k :: 0 <= k <= j && DaeAt(p, k) && forall i :: 0 <= i < k ==> !DaeAt(p, i)
    decreases j
  {
    if exists i :: 0 <= i < j && DaeAt(p, i) {
      var i :| 0 <= i < j && DaeAt(p, i);
      FirstDaeAt(p, i);
    }
  }

  /**
    For a path ending in ".dae", as every DAEpath does, the as-written rewrite
    is the intended one exactly when "dae" occurs nowhere before the trailing
    ".dae" (a directory named "x.dae" is such an occurrence too).
  */
  lemma MshPathAsWrittenAgreesExactly(p: string)
    requires EndsWith(p, ".dae")
    ensures MshPathAsWritten(p) == MshPath(p) <==> forall j :: 0 <= j < |p| - 4 ==> !DaeAt(p, j)
  {
    if forall j :: 0 <= j < |p| - 4 ==> !DaeAt(p, j) {
      MshPathAgrees(p);
    } else {
      var j :| 0 <= j < |p| - 4 && DaeAt(p, j);
      FirstDaeAt(p, j);
      var k :| 0 <= k <= j && DaeAt(p, k) && forall i :: 0 <= i < k ==> !DaeAt(p, i);
      MshPathAsWrittenDiffers(p, k);
    }
  }

  /**
    Where "dae" occurs only in the trailing ".dae", the as-written rewrite is
    the intended one: they differ only on paths with an inner "dae".
  */
  lemma MshPathAgrees(p: string)
    requires EndsWith(p, ".dae")
    requires forall j :: 0 <= j < |p| - 4 ==> !DaeAt(p, j)
    ensures MshPathAsWritten(p) == MshPath(p)
  {
    DaeAtTail(p);
    MshPathAsWrittenOfDae(p, |p| - 4);
    MshPathOfDae(p);
  }

  /** A path ending in ".dae" has a match at its last four characters. */
  lemma DaeAtTail(p: string)
    requires EndsWith(p, ".dae")
    ensures DaeAt(p, |p| - 4)
  {
    var k := |p| - 4;
    assert p[k..] == ".dae";
    assert p[k + 1..k + 4] == p[k..][1..];
  }

  /** With its only match at the end, the as-written rewrite replaces just that match. */
  lemma MshPathAsWrittenOfDae(p: string, k: nat)
    requires k + 4 == |p| && DaeAt(p, k)
    requires forall j :: 0 <= j < k ==> !DaeAt(p, j)
    ensures MshPathAsWritten(p) == p[..k] + ".msh"
  {
    MshPathAsWrittenRewrites(p, k);
    assert p[k + 4..] == [];
    assert p[..k] + ".msh" + [] == p[..k] + ".msh";
  }

  /** The corrected rewrite of a path ending in ".dae". */
  lemma MshPathOfDae(p: string)
    requires EndsWith(p, ".dae")
    ensures MshPath(p) == p[..|p| - 4] + ".msh"
  {
  }

  /** A directory named "x.dae": the '.' before its "dae" is matched too, and the rewrites disagree. */
  lemma MshPathAsWrittenDotDirectory(p: string)
    requires p == "x.dae/x.dae"
    ensures MshPathAsWritten(p) != MshPath(p)
  {
    assert p[2..5] == "dae" && p[1..4] == ".da";
    MshPathAsWrittenDiffers(p, 1);
  }

  lemma CicadaeFirstMatch(p: string)
    requires p == "Cicadae/Cicadae.dae"
    ensures DaeAt(p, 3) && p[3] == 'a' && |p| == 19
    ensures forall j :: 0 <= j < 3 ==> !DaeAt(p, j)
  {
    assert p[1..4] == "ica" && p[2..5] == "cad" && p[3..6] == "ada";
    assert p[4..7] == "dae";
  }

  /**
    A mesh named "Cicadae": the as-written rewrite turns its short path into one
    starting "Cic.msh", so the wrong .msh file is targeted and the real one is
    left on disk; the intended rewrite keeps the name.
  */
  lemma MshPathAsWrittenMangles(p: string)
    requires p == "Cicadae/Cicadae.dae"
    ensures |MshPathAsWritten(p)| > 3 && MshPathAsWritten(p)[3] == '.'
    ensures MshPath(p)[3] == 'a'
    ensures MshPathAsWritten(p) != MshPath(p)
  {
    CicadaeFirstMatch(p);
    MshPathAsWrittenDiffers(p, 3);
  }

}
