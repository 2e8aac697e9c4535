/**
 * `merge_pdfs_in_directory` and the paths the merge script uses.
 *
 * The file system and the PDF library are inputs: whether the directory
 * exists, what `os.listdir` returns, which `merger.append` calls raise and
 * whether writing the merged file raises. The merger's state is the list of
 * file paths it has accepted, in order.
 */
module PdfMerging {
  import opened Wrappers
  import opened Seqs
  import opened Paths
  import opened PdfOrdering

  /** ASCII `str.lower` on one character. */
  function LowerChar(c: char): char
  {
    if 'A' <= c <= 'Z' then (c as int + 32) as char else c
  }

  function Lower(s: string): (r: string)
    ensures |r| == |s|
  {
    seq(|s|, i requires 0 <= i < |s| => LowerChar(s[i]))
  }

  predicate EndsWith(s: string, suffix: string)
  {
    |suffix| <= |s| && s[|s| - |suffix|..] == suffix
  }

  /** `f.lower().endswith(".pdf")`. */
  predicate IsPdfName(f: string)
  {
    EndsWith(Lower(f), ".pdf")
  }

  /** The extension test accepts `.pdf` in every mix of letter case, and nothing else. */
  lemma PdfNameAnyCase(f: string)
    ensures IsPdfName(f) <==>
      |f| >= 4 && f[|f| - 4] == '.' && f[|f| - 3] in "pP" && f[|f| - 2] in "dD" && f[|f| - 1] in "fF"
  {
    if |f| >= 4 {
      var l := Lower(f);
      assert l[|l| - 4..] == [l[|f| - 4], l[|f| - 3], l[|f| - 2], l[|f| - 1]];
    }
  }

  /** `[f for f in listing if f.lower().endswith(".pdf")]`. */
  function SelectPdfs(listing: seq<string>): (r: seq<string>)
    ensures |r| <= |listing|
  {
    if listing == [] then []
    else SelectPdfs(Init(listing)) + (if IsPdfName(Last(listing)) then [Last(listing)] else [])
  }

  /** Exactly the PDF names of the listing are selected. */
  lemma {:induction false} SelectPdfsMembers(listing: seq<string>, f: string)
    ensures f in SelectPdfs(listing) <==> f in listing && IsPdfName(f)
  {
    if listing != [] {
      SelectPdfsMembers(Init(listing), f);
      assert listing == Init(listing) + [Last(listing)];
    }
  }

  /** Selection works name by name, so it keeps the listing order. */
  lemma {:induction false} SelectPdfsAppend(a: seq<string>, b: seq<string>)
    ensures SelectPdfs(a + b) == SelectPdfs(a) + SelectPdfs(b)
  {
    if b == [] {
      assert a + b == a;
    } else {
      assert Init(a + b) == a + Init(b);
      assert Last(a + b) == Last(b);
      SelectPdfsAppend(a, Init(b));
    }
  }

  /** A listing of PDF files only is selected whole, in its order. */
  lemma {:induction false} SelectAllPdfs(listing: seq<string>)
    requires forall i :: 0 <= i < |listing| ==> IsPdfName(listing[i])
    ensures SelectPdfs(listing) == listing
  {
    if listing != [] {
      assert IsPdfName(listing[|listing| - 1]);
      SelectAllPdfs(Init(listing));
    }
  }

  /** One name is selected exactly when it is a PDF name. */
  lemma SelectOne(f: string)
    ensures SelectPdfs([f]) == if IsPdfName(f) then [f] else []
  {
    assert Init([f]) == [] && Last([f]) == f;
  }

  /** An upper-case extension is a PDF name. */
  lemma UpperCaseExtensionExample()
    ensures IsPdfName("b.PDF")
  {
    PdfNameAnyCase("b.PDF");
  }

  lemma LowerCaseExtensionExample()
    ensures IsPdfName("a.pdf")
  {
    PdfNameAnyCase("a.pdf");
  }

  lemma OtherExtensionExample()
    ensures !IsPdfName("notes.txt")
  {
    PdfNameAnyCase("notes.txt");
  }

  lemma SelectExample()
    ensures SelectPdfs(["b.PDF", "notes.txt", "a.pdf"]) == ["b.PDF", "a.pdf"]
  {
    var b, n, a := "b.PDF", "notes.txt", "a.pdf";
    UpperCaseExtensionExample();
    OtherExtensionExample();
    LowerCaseExtensionExample();
    SelectOne(b);
    SelectOne(n);
    SelectOne(a);
    SelectPdfsAppend([b, n], [a]);
    SelectPdfsAppend([b], [n]);
    assert [b, n, a] == [b, n] + [a];
    assert [b, n] == [b] + [n];
  }

  /**
   * The paths the merger accepts from the append loop over `files`: each
   * file's path in turn, except those whose `merger.append` raises.
   */
  function Appended(directory: string, files: seq<string>, appendFails: string -> bool): (r: seq<string>)
    ensures |r| <= |files|
  {
    if files == [] then []
    else
      var path := Join(directory, Last(files));
      Appended(directory, Init(files), appendFails) + (if appendFails(path) then [] else [path])
  }

  /** The loop handles the files one by one: appending two runs is appending each. */
  lemma {:induction false} AppendedConcat(directory: string, a: seq<string>, b: seq<string>, appendFails: string -> bool)
    ensures Appended(directory, a + b, appendFails) == Appended(directory, a, appendFails) + Appended(directory, b, appendFails)
  {
    if b == [] {
      assert a + b == a;
    } else {
      assert Init(a + b) == a + Init(b);
      assert Last(a + b) == Last(b);
      AppendedConcat(directory, a, Init(b), appendFails);
    }
  }

  /** A file whose append raises is skipped, and the files after it are still appended. */
  lemma SkipFailedFile(directory: string, before: seq<string>, f: string, after: seq<string>, appendFails: string -> bool)
    requires appendFails(Join(directory, f))
    ensures Appended(directory, before + [f] + after, appendFails)
         == Appended(directory, before, appendFails) + Appended(directory, after, appendFails)
  {
    var a := Appended(directory, before, appendFails);
    AppendedConcat(directory, before + [f], after, appendFails);
    AppendedConcat(directory, before, [f], appendFails);
    assert Init([f]) == [] && Last([f]) == f;
    assert Appended(directory, [f], appendFails) == [];
    assert Appended(directory, before + [f], appendFails) == a + [] == a;
  }

  /** When no append raises, every file is appended, in order, under its joined path. */
  lemma {:induction false} AppendedAll(directory: string, files: seq<string>, appendFails: string -> bool)
    requires forall i :: 0 <= i < |files| ==> !appendFails(Join(directory, files[i]))
    ensures Appended(directory, files, appendFails)
         == seq(|files|, i requires 0 <= i < |files| => Join(directory, files[i]))
  {
    if files != [] {
      var init, n := Init(files), |files| - 1;
      var last := Join(directory, files[n]);
      assert !appendFails(last);
      AppendedAll(directory, init, appendFails);
      var paths := seq(|files|, i requires 0 <= i < |files| => Join(directory, files[i]));
      var initPaths := seq(|init|, i requires 0 <= i < |init| => Join(directory, init[i]));
      assert Appended(directory, files, appendFails) == initPaths + [last];
      assert paths == initPaths + [last] by {
        forall i | 0 <= i < n ensures paths[i] == initPaths[i] {
          assert init[i] == files[i];
        }
      }
    }
  }

  /** A path is in the merged output exactly when it is the path of some file whose append did not raise. */
  lemma AppendedMembers(directory: string, files: seq<string>, appendFails: string -> bool, p: string)
    ensures p in Appended(directory, files, appendFails)
        <==> exists i :: 0 <= i < |files| && p == Join(directory, files[i]) && !appendFails(p)
  {
    if p in Appended(directory, files, appendFails) {
      AppendedOnlyFiles(directory, files, appendFails, p);
    }
    if exists i :: 0 <= i < |files| && p == Join(directory, files[i]) && !appendFails(p) {
      var i :| 0 <= i < |files| && p == Join(directory, files[i]) && !appendFails(p);
      AppendedHasFile(directory, files, appendFails, i);
    }
  }

  /** Every merged path is the path of a file whose append did not raise. */
  lemma {:induction false} AppendedOnlyFiles(directory: string, files: seq<string>, appendFails: string -> bool, p: string)
    requires p in Appended(directory, files, appendFails)
    ensures exists i :: 0 <= i < |files| && p == Join(directory, files[i]) && !appendFails(p)
  {
    var init, n := Init(files), |files| - 1;
    var q := Join(directory, files[n]);
    var before := Appended(directory, init, appendFails);
    assert Appended(directory, files, appendFails) == before + (if appendFails(q) then [] else [q]);
    if p in before {
      AppendedOnlyFiles(directory, init, appendFails, p);
      var i :| 0 <= i < |init| && p == Join(directory, init[i]) && !appendFails(p);
      assert files[i] == init[i];
    } else {
      assert 0 <= n < |files| && p == Join(directory, files[n]) && !appendFails(p);
    }
  }

  /** The path of every file whose append does not raise is merged. */
  lemma AppendedHasFile(directory: string, files: seq<string>, appendFails: string -> bool, i: nat)
    requires i < |files| && !appendFails(Join(directory, files[i]))
    ensures Join(directory, files[i]) in Appended(directory, files, appendFails)
  {
    var f, after := files[i], files[i + 1..];
    assert files == files[..i] + [f] + after;
    AppendedConcat(directory, files[..i] + [f], after, appendFails);
    AppendedConcat(directory, files[..i], [f], appendFails);
    assert Init([f]) == [] && Last([f]) == f;
    assert Appended(directory, [f], appendFails) == [Join(directory, f)];
  }

  /** How a run of `merge_pdfs_in_directory` ends. */
  datatype MergeOutcome =
    | DirectoryMissing      // returns None before listing the directory
    | NoPdfFiles            // returns None: nothing to merge
    | SortKeyTypeError      // `pdf_files.sort` raises: an int key met a str key
    | WriteFailed           // returns None: creating the directory or writing raised
    | Merged(path: string)  // returns the output path

  /**
   * `merge_pdfs_in_directory(directory, output_path)`. Also returns the
   * paths the merger accepted, in merge order.
   */
  method MergePdfsInDirectory(
    directoryExists: bool, listing: seq<string>, directory: string, outputPath: string,
    appendFails: string -> bool, writeFails: bool)
    returns (outcome: MergeOutcome, merged: seq<string>)
    ensures outcome == DirectoryMissing <==> !directoryExists
    ensures outcome == NoPdfFiles <==> directoryExists && SelectPdfs(listing) == []
    ensures outcome == SortKeyTypeError
        <==> directoryExists && SelectPdfs(listing) != [] && !UniformKeys(SelectPdfs(listing))
    ensures outcome.Merged? <==>
      directoryExists && SelectPdfs(listing) != [] && UniformKeys(SelectPdfs(listing)) && !writeFails
    ensures outcome.Merged? ==> outcome.path == outputPath
    ensures outcome.WriteFailed? || outcome.Merged? ==>
      merged == Appended(directory, SortByKey(SelectPdfs(listing)), appendFails)
    ensures outcome == DirectoryMissing || outcome == NoPdfFiles || outcome == SortKeyTypeError ==> merged == []
  {
    merged := [];
    if !directoryExists {
      return DirectoryMissing, merged;
    }
    var pdfs := SelectPdfs(listing);
    if pdfs == [] {
      return NoPdfFiles, merged;
    }
    if !UniformKeys(pdfs) {
      return SortKeyTypeError, merged;
    }
    var files := new string[|pdfs|](i requires 0 <= i < |pdfs| => pdfs[i]);
    assert files[..] == pdfs;
    SortPdfFiles(files);
    for k := 0 to files.Length
      invariant merged == Appended(directory, files[..k], appendFails)
    {
      var path := Join(directory, files[k]);
      if !appendFails(path) {
        merged := merged + [path];
      }
      assert files[..k + 1] == files[..k] + [files[k]];
    }
    assert files[..files.Length] == files[..];
    if writeFails {
      return WriteFailed, merged;
    }
    return Merged(outputPath), merged;
  }

  /** `COMMERCIAL_CASES_DIR`: the environment's directory, or `commercial_cases` under the root, normalised. */
  function CasesDirectory(root: AbsPath, envDirectory: Option<string>): (r: string)
    ensures IsAbs(r)
    ensures envDirectory.None? ==> r == Join(root, "commercial_cases")
    ensures envDirectory.Some? && IsAbs(envDirectory.value) ==> r == envDirectory.value
    ensures envDirectory.Some? && !IsAbs(envDirectory.value) ==> r == Join(root, envDirectory.value)
  {
    NormalizePath(root, match envDirectory case Some(d) => d case None => Join(root, "commercial_cases"))
  }

  /** `OUTPUT_PATH`: the output file name (default `merged_output_cases.pdf`) inside the cases directory. */
  function OutputPath(root: AbsPath, envDirectory: Option<string>, envFile: Option<string>): (r: string)
    ensures IsAbs(r)
    ensures envFile.Some? && IsAbs(envFile.value) ==> r == envFile.value
    ensures envFile.Some? && !IsAbs(envFile.value) ==> r == Join(CasesDirectory(root, envDirectory), envFile.value)
    ensures envFile.None? ==> r == Join(CasesDirectory(root, envDirectory), "merged_output_cases.pdf")
  {
    Join(CasesDirectory(root, envDirectory), match envFile case Some(f) => f case None => "merged_output_cases.pdf")
  }
}
