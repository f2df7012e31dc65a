/**
 * The command-line helpers of the two scripts: the output-format validator, the
 * rule for a metadata file given directly, the vault-relative path search, the
 * `vault:/` URI and the output file names.
 *
 * Paths use the POSIX separator `/` (`os.sep`), and `os.path.exists` is a
 * parameter: the file system is not modelled.
 */
module Cli {
  import opened Wrappers
  import opened Errors
  import opened PyStr

  // ---------------------------------------------------------------------------
  // parse_choices

  /** The five output formats `parse_choices` accepts. */
  const ValidChoices: seq<string> := ["obsidian-annotator", "obs", "bake", "markdown", "md"]

  /** The position of the first invalid choice, or `|choices|` when all are valid. */
  function FirstInvalid(choices: seq<string>): (k: nat)
    ensures k <= |choices|
    ensures forall j :: 0 <= j < k ==> choices[j] in ValidChoices
    ensures k < |choices| ==> choices[k] !in ValidChoices
  {
    if choices == [] then 0
    else if choices[0] !in ValidChoices then 0
    else 1 + FirstInvalid(choices[1..])
  }

  /** `parse_choices(choice_str)`: the comma-separated list, in order, when every
      element is a valid format; otherwise `ArgumentTypeError` naming the first
      invalid element. */
  function ParseChoices(choiceStr: string): (r: Result<seq<string>, Error>)
    ensures r.Success? <==> forall k :: 0 <= k < |Split(choiceStr, ',')| ==> Split(choiceStr, ',')[k] in ValidChoices
    ensures r.Success? ==> r.value == Split(choiceStr, ',') && Join(r.value, ',') == choiceStr
    ensures r.Failure? ==>
              exists k :: (&& 0 <= k < |Split(choiceStr, ',')|
                           && (forall j :: 0 <= j < k ==> Split(choiceStr, ',')[j] in ValidChoices)
                           && Split(choiceStr, ',')[k] !in ValidChoices
                           && r.error == InvalidChoice(Split(choiceStr, ',')[k]))
  {
    var choices := Split(choiceStr, ',');
    var k := FirstInvalid(choices);
    JoinSplit(choiceStr, ',');
    if k < |choices| then Failure(InvalidChoice(choices[k])) else Success(choices)
  }

  /** The command-line default `'obsidian-annotator'` goes through the same
      validator and yields the one-element list. */
  lemma ParseDefault()
    ensures ParseChoices("obsidian-annotator") == Success(["obsidian-annotator"])
  {
    SplitNoSeparator("obsidian-annotator", ',');
  }

  /** An empty argument is one empty choice, which is rejected. */
  lemma ParseEmpty()
    ensures ParseChoices("") == Failure(InvalidChoice(""))
  {
  }

  /** `'md,pdf,obs'` fails on `'pdf'`, the first bad element. */
  lemma ParseStopsAtFirstInvalid()
    ensures ParseChoices("md,pdf,obs") == Failure(InvalidChoice("pdf"))
  {
    var parts := ["md", "pdf", "obs"];
    assert Join(parts, ',') == "md,pdf,obs" by {
      assert parts[1..] == ["pdf", "obs"];
      assert parts[1..][1..] == ["obs"];
    }
    AllChoicesCommaFree(parts);
    SplitJoin(parts, ',');
    assert parts[1..][1..] == ["obs"];
    assert FirstInvalid(parts) == 1 + FirstInvalid(parts[1..]);
    assert "pdf" !in ValidChoices;
  }

  lemma AllChoicesCommaFree(parts: seq<string>)
    requires parts == ["md", "pdf", "obs"]
    ensures forall k :: 0 <= k < |parts| ==> ',' !in parts[k]
  {
  }

  // ---------------------------------------------------------------------------
  // a metadata file instead of a PDF

  /** `file_path[-3:] == 'lua'`. */
  predicate IsLuaPath(filePath: string)
    ensures IsLuaPath(filePath) ==> |filePath| >= 3
  {
    Slice(filePath, -3, |filePath|) == "lua"
  }

  /** The slice test is a suffix test: the path ends in `lua` (any path shorter
      than three characters does not). */
  lemma IsLuaPathSuffix(filePath: string)
    ensures IsLuaPath(filePath) <==> |filePath| >= 3 && filePath[|filePath| - 3..] == "lua"
  {
  }

  /** The lua-mode check: for a metadata file every format must be `md` or
      `markdown` (otherwise the script exits); the result is `needs_context`,
      true exactly for a PDF. */
  function NeedsContext(filePath: string, outputFormat: seq<string>): (r: Result<bool, Error>)
    ensures r.Failure? <==> IsLuaPath(filePath) && exists k :: 0 <= k < |outputFormat| && outputFormat[k] != "md" && outputFormat[k] != "markdown"
    ensures r.Failure? ==> r.error == ConversionUnavailable
    ensures r.Success? ==> r.value == !IsLuaPath(filePath)
  {
    if IsLuaPath(filePath) then
      if forall k :: 0 <= k < |outputFormat| ==> outputFormat[k] in ["md", "markdown"] then Success(false)
      else Failure(ConversionUnavailable)
    else Success(true)
  }

  // ---------------------------------------------------------------------------
  // find_relative_path_to_pdf

  /** `os.path.join(a, b)` for a relative `b`. */
  function PathJoin(a: string, b: string): (p: string)
    ensures p == a + b || p == a + "/" + b
  {
    if a == [] || a[|a| - 1] == '/' then a + b else a + "/" + b
  }

  /** `current_path` holds `.obsidian` or `.obsidian.nosync`. */
  predicate IsVaultRoot(dir: string, pathExists: string -> bool)
  {
    pathExists(PathJoin(dir, ".obsidian")) || pathExists(PathJoin(dir, ".obsidian.nosync"))
  }

  /** `absolute_pdf_path.split(os.sep)`. */
  function Parts(path: string): (parts: seq<string>)
    ensures |parts| >= 1
  {
    Split(path, '/')
  }

  /** `find_relative_path_to_pdf(absolute_pdf_path)`: the prefixes of the path are
      tried from the longest proper one down to the first component; the first
      that is a vault root decides, and the rest of the path after it is returned. */
  method FindRelativePathToPdf(absolutePdfPath: string, pathExists: string -> bool) returns (r: Option<string>)
    ensures var parts := Parts(absolutePdfPath);
      r.None? <==> forall i :: 1 <= i < |parts| ==> !IsVaultRoot(Join(parts[..i], '/'), pathExists)
    ensures var parts := Parts(absolutePdfPath);
      r.Some? ==>
        exists i :: (&& 1 <= i < |parts|
                     && IsVaultRoot(Join(parts[..i], '/'), pathExists)
                     && (forall j :: i < j < |parts| ==> !IsVaultRoot(Join(parts[..j], '/'), pathExists))
                     && r.value == Join(parts[i..], '/')
                     && Join(parts[..i], '/') + "/" + r.value == absolutePdfPath)
  {
    var pathParts := Parts(absolutePdfPath);
    var i := |pathParts| - 1;
    while i > 0
      invariant 0 <= i < |pathParts|
      invariant forall j :: i < j < |pathParts| ==> !IsVaultRoot(Join(pathParts[..j], '/'), pathExists)
    {
      var currentPath := Join(pathParts[..i], '/');
      if pathExists(PathJoin(currentPath, ".obsidian")) || pathExists(PathJoin(currentPath, ".obsidian.nosync")) {
        JoinAt(pathParts, i, '/');
        JoinSplit(absolutePdfPath, '/');
        assert IsVaultRoot(Join(pathParts[..i], '/'), pathExists);
        return Some(Join(pathParts[i..], '/'));
      }
      i := i - 1;
    }
    return None;
  }

  // ---------------------------------------------------------------------------
  // the vault URI and the output names

  const VaultPrefix := "vault:/"

  /** `'vault:/' + find_relative_path_to_pdf(file_path)`: a `TypeError` when no
      vault root was found. */
  function VaultPath(rawVaultPath: Option<string>): (r: Result<string, Error>)
    ensures rawVaultPath.None? <==> r.Failure?
    ensures r.Failure? ==> r.error == NoVault
    ensures r.Success? ==> StartsWith(r.value, VaultPrefix) && r.value[|VaultPrefix|..] == rawVaultPath.value
  {
    match rawVaultPath
    case None => Failure(NoVault)
    case Some(p) => Success(VaultPrefix + p)
  }

  /** `vault_path.replace('vault:/', '', 1)` gives back the vault-relative path. */
  lemma VaultPathRoundTrip(rawVaultPath: string)
    ensures ReplaceFirst(VaultPath(Some(rawVaultPath)).value, VaultPrefix, "") == rawVaultPath
  {
    ReplaceFirstPrefix(VaultPrefix, rawVaultPath);
  }

  /** The first line of the annotator file, `annotation-target::[[...]]`. */
  function AnnotationTarget(vaultPath: string): (line: string)
    ensures StartsWith(line, "annotation-target::[[") && line[|line| - 1] == '\n'
  {
    "annotation-target::[[" + ReplaceFirst(vaultPath, VaultPrefix, "") + "]]\n"
  }

  /** The annotation target names the PDF by its vault-relative path. */
  lemma AnnotationTargetNamesPdf(rawVaultPath: string)
    ensures AnnotationTarget(VaultPath(Some(rawVaultPath)).value) == "annotation-target::[[" + rawVaultPath + "]]\n"
  {
    VaultPathRoundTrip(rawVaultPath);
  }

  const MarkdownSuffix := "_anno.md"
  const AnnotatorSuffix := "_obs-anno.md"

  /** `file_path.replace('.pdf', '', 1) + suffix`. */
  function OutputFileName(filePath: string, suffix: string): (name: string)
  {
    ReplaceFirst(filePath, ".pdf", "") + suffix
  }

  /** Only the first `.pdf` is removed, wherever it is in the path; a path without
      `.pdf` just gets the suffix. */
  lemma OutputFileNameSpec(filePath: string, suffix: string)
    ensures (forall j :: !OccursAt(filePath, ".pdf", j)) ==> OutputFileName(filePath, suffix) == filePath + suffix
    ensures forall k :: OccursAt(filePath, ".pdf", k) && (forall j :: 0 <= j < k ==> !OccursAt(filePath, ".pdf", j)) ==>
              OutputFileName(filePath, suffix) == filePath[..k] + filePath[k + 4..] + suffix
  {
    RemoveFirstThenAppend(filePath, ".pdf", suffix);
  }

  /** A directory named like `x.pdfs` loses its `.pdf`, not the file name. */
  lemma OutputFileNameExample()
    ensures OutputFileName("/x.pdfs/b.pdf", MarkdownSuffix) == "/xs/b.pdf_anno.md"
  {
    var p := "/x.pdfs/b.pdf";
    assert p[0..4][0] == '/' && p[1..5][0] == 'x';
    assert p[2..6] == ".pdf";
    assert FindFrom(p, ".pdf", 2) == 2;
    assert FindFrom(p, ".pdf", 1) == 2;
    assert Find(p, ".pdf") == 2;
    assert p[..2] + "" + p[6..] == "/xs/b.pdf";
  }

  /** The annotator file of `/v/b.pdf` is `/v/b_obs-anno.md`: the extension gives way to the suffix. */
  lemma AnnotatorFileNameExample()
    ensures OutputFileName("/v/b.pdf", AnnotatorSuffix) == "/v/b" + AnnotatorSuffix
  {
    var p := "/v/b.pdf";
    assert p[0..4][0] == '/' && p[1..5][0] == 'v' && p[2..6][0] == '/' && p[3..7][0] == 'b';
    assert p[4..8] == ".pdf";
    assert FindFrom(p, ".pdf", 4) == 4;
    assert FindFrom(p, ".pdf", 2) == 4;
    assert Find(p, ".pdf") == 4;
    assert p[..4] + "" + p[8..] == "/v/b";
  }
}
