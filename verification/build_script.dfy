/**
 * The Rust build script: the per-OS link plan and `get_out_dir`, which
 * cuts the profile directory out of Cargo's `OUT_DIR`.
 */
module BuildScript {
  import opened Wrappers

  /** `pat` occurs in `s` at offset `i`. */
  predicate OccursAt(s: string, pat: string, i: nat)
  {
    i + |pat| <= |s| && s[i..i + |pat|] == pat
  }

  /** `str::find`: the offset of the first occurrence of `pat` at or after `from`. */
  function FindFrom(s: string, pat: string, from: nat): (r: Option<nat>)
    requires from <= |s|
    ensures r.Some? ==> from <= r.value && OccursAt(s, pat, r.value)
    ensures r.Some? ==> forall j :: from <= j < r.value ==> !OccursAt(s, pat, j)
    ensures r.None? ==> forall j :: from <= j ==> !OccursAt(s, pat, j)
    decreases |s| - from
  {
    if OccursAt(s, pat, from) then Some(from)
    else if from + |pat| >= |s| then None
    else FindFrom(s, pat, from + 1)
  }

  /** `str::find` from the start. */
  function Find(s: string, pat: string): (r: Option<nat>)
    ensures r.Some? ==> OccursAt(s, pat, r.value) && forall j :: 0 <= j < r.value ==> !OccursAt(s, pat, j)
    ensures r.None? ==> forall j :: !OccursAt(s, pat, j)
  {
    FindFrom(s, pat, 0)
  }

  /** `s.find(pat).unwrap_or(0)`. */
  function OffsetOrZero(s: string, pat: string): (d: nat)
    ensures d > 0 ==> Find(s, pat) == Some(d)
    ensures d == 0 ==> Find(s, pat) == None || Find(s, pat) == Some(0)
  {
    Find(s, pat).GetOr(0)
  }

  const DebugDir: string := "debug"
  const ReleaseDir: string := "release"

  /**
   * One half of `get_out_dir`: when `pat` is found at an offset above 0,
   * the text before it followed by `pat`; otherwise nothing.
   */
  function CutThrough(outDir: string, pat: string): (piece: string)
    ensures piece == [] || (|piece| >= |pat| && OccursAt(outDir, pat, |piece| - |pat|))
  {
    var offset := OffsetOrZero(outDir, pat);
    if offset > 0 then outDir[..offset] + pat else ""
  }

  /**
   * `get_out_dir`: the part of `OUT_DIR` up to and including "debug" when it
   * occurs at an offset above 0, followed by the same for "release"; an
   * occurrence at offset 0 counts as none.
   */
  function GetOutDir(outDir: string): (path: string)
    ensures |path| <= 2 * |outDir|
  {
    CutThrough(outDir, DebugDir) + CutThrough(outDir, ReleaseDir)
  }

  /** A keyword found first at an offset above 0 cuts `OUT_DIR` just after that occurrence. */
  lemma CutFound(outDir: string, pat: string, d: nat)
    requires d > 0 && Find(outDir, pat) == Some(d)
    ensures CutThrough(outDir, pat) == outDir[..d + |pat|]
  {
    assert outDir[..d] + pat == outDir[..d + |pat|];
  }

  /** A keyword that is missing, or found only at offset 0, contributes nothing. */
  lemma CutMissing(outDir: string, pat: string)
    requires Find(outDir, pat).None? || Find(outDir, pat) == Some(0)
    ensures CutThrough(outDir, pat) == ""
  {
  }

  /** With neither keyword found at an offset above 0, the path is empty. */
  lemma NoKeywordEmpty(outDir: string)
    requires Find(outDir, DebugDir).None? || Find(outDir, DebugDir) == Some(0)
    requires Find(outDir, ReleaseDir).None? || Find(outDir, ReleaseDir) == Some(0)
    ensures GetOutDir(outDir) == ""
  {
    CutMissing(outDir, DebugDir);
    CutMissing(outDir, ReleaseDir);
  }

  /** With only "debug" found (above offset 0), the path is `OUT_DIR` cut just after its first "debug". */
  lemma DebugOnly(outDir: string, d: nat)
    requires d > 0 && Find(outDir, DebugDir) == Some(d)
    requires Find(outDir, ReleaseDir).None? || Find(outDir, ReleaseDir) == Some(0)
    ensures GetOutDir(outDir) == outDir[..d + 5]
  {
    CutFound(outDir, DebugDir, d);
    CutMissing(outDir, ReleaseDir);
  }

  /** With only "release" found (above offset 0), the path is `OUT_DIR` cut just after its first "release". */
  lemma ReleaseOnly(outDir: string, r: nat)
    requires r > 0 && Find(outDir, ReleaseDir) == Some(r)
    requires Find(outDir, DebugDir).None? || Find(outDir, DebugDir) == Some(0)
    ensures GetOutDir(outDir) == outDir[..r + 7]
  {
    CutMissing(outDir, DebugDir);
    CutFound(outDir, ReleaseDir, r);
  }

  /** With both found above offset 0, the two cut prefixes are concatenated, debug first. */
  lemma BothKeywords(outDir: string, d: nat, r: nat)
    requires d > 0 && Find(outDir, DebugDir) == Some(d)
    requires r > 0 && Find(outDir, ReleaseDir) == Some(r)
    ensures GetOutDir(outDir) == outDir[..d + 5] + outDir[..r + 7]
  {
    CutFound(outDir, DebugDir, d);
    CutFound(outDir, ReleaseDir, r);
  }

  // ---------------------------------------------------------------------------
  // Target OS

  /** What the build script does for a target OS. */
  datatype OsPlan =
    | Link(searchDir: string, extension: string)  // link from `searchDir`, copy `*.extension`
    | Panic(message: string)

  /** The `match target_os.as_str()`: Windows, Linux and macOS each have a library directory and extension. */
  function PlanForOs(targetOs: string): (p: OsPlan)
    ensures p.Panic? <==> targetOs !in {"windows", "linux", "macos"}
    ensures p.Panic? ==> p.message == "Unsupported target OS: " + targetOs
  {
    match targetOs
    case "windows" => Link("../../dcv/lib/win", "dll")
    case "linux" => Link("../../dcv/lib/linux/x64", "so")
    case "macos" => Link("../../dcv/lib/mac", "dylib")
    case _ => Panic("Unsupported target OS: " + targetOs)
  }

  /** The OS whose libraries carry an extension. */
  function OsOfExtension(extension: string): Option<string>
  {
    if extension == "dll" then Some("windows")
    else if extension == "so" then Some("linux")
    else if extension == "dylib" then Some("macos")
    else None
  }

  /** The copied extension identifies the OS: the map is injective. */
  lemma ExtensionIdentifiesOs(targetOs: string)
    requires PlanForOs(targetOs).Link?
    ensures OsOfExtension(PlanForOs(targetOs).extension) == Some(targetOs)
  {
  }
}
