/** The conversion loop of the `Action` constructor: each selected file is read, converted,
    and written back only when the conversion changed it; the changed files are counted. */
module Conversion {
  import opened Wrappers
  import opened EolText
  import opened FileSystem
  import opened Filter

  /** The state the loop carries: the file contents and `convertedFileCount`. */
  datatype Tally = Tally(files: map<Path, string>, converted: nat)

  /** True when visiting `f` reads it successfully and its converted text differs. */
  predicate Changes(files: map<Path, string>, faults: Faults, f: FileInfo, target: string)
  {
    var p := f.fullName;
    p in files && p !in faults.unreadable && Convert(files[p], target) != files[p]
  }

  /** One iteration. A failed read skips the file. The count goes up before the write,
      so a file whose write fails is still counted, and its content stays as it was. */
  function Visit(t: Tally, faults: Faults, f: FileInfo, target: string): (r: Tally)
    ensures r.files.Keys == t.files.Keys
    ensures t.converted <= r.converted <= t.converted + 1
    ensures forall p :: p in t.files && p != f.fullName ==> r.files[p] == t.files[p]
  {
    var p := f.fullName;
    if !Changes(t.files, faults, f, target) then t
    else if p in faults.unwritable then Tally(t.files, t.converted + 1)
    else Tally(t.files[p := Convert(t.files[p], target)], t.converted + 1)
  }

  /** The whole loop over `infos`, in order. */
  function Batch(t: Tally, faults: Faults, infos: seq<FileInfo>, target: string): (r: Tally)
    ensures r.files.Keys == t.files.Keys
    ensures t.converted <= r.converted <= t.converted + |infos|
    decreases |infos|
  {
    if infos == [] then t
    else Visit(Batch(t, faults, infos[..|infos| - 1], target), faults, infos[|infos| - 1], target)
  }

  /** The number of infos whose file the loop would change, judged on the initial contents. */
  function ChangedCount(files: map<Path, string>, faults: Faults, infos: seq<FileInfo>, target: string): nat
    decreases |infos|
  {
    if infos == [] then 0
    else
      var n := |infos| - 1;
      ChangedCount(files, faults, infos[..n], target) + (if Changes(files, faults, infos[n], target) then 1 else 0)
  }

  /** The content a single visit leaves at `f`'s path. */
  function AfterVisit(files: map<Path, string>, faults: Faults, f: FileInfo, target: string): string
    requires f.fullName in files
  {
    if Changes(files, faults, f, target) && f.fullName !in faults.unwritable
    then Convert(files[f.fullName], target)
    else files[f.fullName]
  }

  function Names(infos: seq<FileInfo>): set<Path>
  {
    set f | f in infos :: f.fullName
  }

  predicate DistinctNames(infos: seq<FileInfo>)
  {
    forall i, j :: 0 <= i < j < |infos| ==> infos[i].fullName != infos[j].fullName
  }

  /** The loop of the `Action` constructor, over the disk. */
  method ConvertFiles(disk: Disk, willConvertFiles: seq<FileInfo>, targetEol: string)
    returns (convertedFileCount: nat)
    modifies disk
    ensures Tally(disk.files, convertedFileCount) == Batch(Tally(old(disk.files), 0), disk.faults, willConvertFiles, targetEol)
  {
    convertedFileCount := 0;
    for i := 0 to |willConvertFiles|
      invariant Tally(disk.files, convertedFileCount)
        == Batch(Tally(old(disk.files), 0), disk.faults, willConvertFiles[..i], targetEol)
    {
      assert willConvertFiles[..i + 1][..i] == willConvertFiles[..i];
      var iterFile := willConvertFiles[i];
      var text := disk.ReadAllText(iterFile.fullName);
      if text.Some? {
        var convertedText := Convert(text.value, targetEol);
        if convertedText != text.value {
          convertedFileCount := convertedFileCount + 1;
          var written := disk.WriteAllText(iterFile.fullName, convertedText);
        }
      }
    }
    assert willConvertFiles[..|willConvertFiles|] == willConvertFiles;
  }

  // ---------------------------------------------------------------------------
  // Properties of the loop

  /** Running the loop over `a + b` is running it over `a` and then over `b`. */
  lemma {:induction false} BatchAppend(t: Tally, faults: Faults, a: seq<FileInfo>, b: seq<FileInfo>, target: string)
    ensures Batch(t, faults, a + b, target) == Batch(Batch(t, faults, a, target), faults, b, target)
    decreases |b|
  {
    if b == [] {
      assert a + b == a;
    } else {
      var n := |b| - 1;
      assert (a + b)[..|a + b| - 1] == a + b[..n];
      assert (a + b)[|a + b| - 1] == b[n];
      BatchAppend(t, faults, a, b[..n], target);
    }
  }

  /** The loop creates and deletes no file, never lowers the count, and leaves the content
      of every path it does not visit as it was. */
  lemma {:induction false} BatchFrame(t: Tally, faults: Faults, infos: seq<FileInfo>, target: string)
    ensures var r := Batch(t, faults, infos, target);
      && r.files.Keys == t.files.Keys
      && r.converted >= t.converted
      && (forall p :: p in t.files && p !in Names(infos) ==> r.files[p] == t.files[p])
    decreases |infos|
  {
    if infos != [] {
      var n := |infos| - 1;
      BatchFrame(t, faults, infos[..n], target);
      assert Names(infos) == Names(infos[..n]) + {infos[n].fullName} by {
        assert infos == infos[..n] + [infos[n]];
      }
    }
  }

  /** The loop over a single file is one visit. */
  lemma BatchOfOne(t: Tally, faults: Faults, f: FileInfo, target: string)
    ensures Batch(t, faults, [f], target) == Visit(t, faults, f, target)
  {
    assert [f][..0] == [];
  }

  /** A file whose read fails is skipped: removing it from the list changes nothing. */
  lemma SkipsFailedRead(t: Tally, faults: Faults, a: seq<FileInfo>, f: FileInfo, b: seq<FileInfo>, target: string)
    requires f.fullName !in t.files || f.fullName in faults.unreadable
    ensures Batch(t, faults, a + [f] + b, target) == Batch(t, faults, a + b, target)
  {
    BatchAppend(t, faults, a + [f], b, target);
    BatchAppend(t, faults, a, [f], target);
    BatchFrame(t, faults, a, target);
    assert [f][..0] == [];
    BatchAppend(t, faults, a, b, target);
  }

  /** The last name of a list that names each file once is not among the earlier names. */
  lemma LastNameIsNew(infos: seq<FileInfo>)
    requires DistinctNames(infos) && infos != []
    ensures DistinctNames(infos[..|infos| - 1])
    ensures infos[|infos| - 1].fullName !in Names(infos[..|infos| - 1])
  {
    var n := |infos| - 1;
    forall j | 0 <= j < n ensures infos[..n][j].fullName != infos[n].fullName {
      assert infos[..n][j] == infos[j];
    }
  }

  /** When the list names each file once, the count is the number of listed files whose
      converted text differs from their content before the run. */
  lemma {:induction false} BatchCountOnDistinctFiles(t: Tally, faults: Faults, infos: seq<FileInfo>, target: string)
    requires DistinctNames(infos)
    ensures Batch(t, faults, infos, target).converted == t.converted + ChangedCount(t.files, faults, infos, target)
    decreases |infos|
  {
    if infos != [] {
      var n := |infos| - 1;
      LastNameIsNew(infos);
      BatchCountOnDistinctFiles(t, faults, infos[..n], target);
      BatchFrame(t, faults, infos[..n], target);
      var r' := Batch(t, faults, infos[..n], target);
      assert Changes(r'.files, faults, infos[n], target) == Changes(t.files, faults, infos[n], target);
    }
  }

  /** When the list names each file once, each listed file ends up with its converted text
      exactly when that differs and its write succeeds; every other file keeps its content. */
  lemma {:induction false} BatchContentOnDistinctFiles(t: Tally, faults: Faults, infos: seq<FileInfo>, target: string)
    requires DistinctNames(infos)
    ensures var r := Batch(t, faults, infos, target);
      && r.files.Keys == t.files.Keys
      && (forall i :: 0 <= i < |infos| && infos[i].fullName in t.files ==>
            r.files[infos[i].fullName] == AfterVisit(t.files, faults, infos[i], target))
      && (forall p :: p in t.files && p !in Names(infos) ==> r.files[p] == t.files[p])
  {
    BatchFrame(t, faults, infos, target);
    BatchAtDistinctNames(t, faults, infos, target);
  }

  /** When the list names each file once, each listed file ends up as its own visit,
      on the contents before the run, leaves it. */
  lemma {:induction false} BatchAtDistinctNames(t: Tally, faults: Faults, infos: seq<FileInfo>, target: string)
    requires DistinctNames(infos)
    ensures var r := Batch(t, faults, infos, target);
      forall i :: 0 <= i < |infos| && infos[i].fullName in t.files ==>
        r.files[infos[i].fullName] == AfterVisit(t.files, faults, infos[i], target)
    decreases |infos|
  {
    if infos != [] {
      var n := |infos| - 1;
      var prefix, last := infos[..n], infos[n];
      LastNameIsNew(infos);
      BatchAtDistinctNames(t, faults, prefix, target);
      var r' := Batch(t, faults, prefix, target);
      assert last.fullName in t.files ==> r'.files[last.fullName] == t.files[last.fullName] by {
        BatchFrame(t, faults, prefix, target);
      }
      forall i | 0 <= i < n && infos[i].fullName in t.files
        ensures Batch(t, faults, infos, target).files[infos[i].fullName] == r'.files[infos[i].fullName]
      {
        assert infos[i] == prefix[i];
        assert infos[i].fullName != last.fullName;
      }
    }
  }

  /** After a CRLF run whose writes all succeed, every visited readable file is in CRLF form. */
  lemma {:induction false} CrlfRunLeavesCrlfForm(t: Tally, faults: Faults, infos: seq<FileInfo>)
    requires forall f :: f in infos ==> f.fullName !in faults.unwritable
    ensures var r := Batch(t, faults, infos, CRLF);
      forall f :: f in infos && f.fullName in r.files && f.fullName !in faults.unreadable ==>
        LfPrecededByCr(r.files[f.fullName])
    decreases |infos|
  {
    if infos != [] {
      var n := |infos| - 1;
      var prefix := infos[..n];
      CrlfRunLeavesCrlfForm(t, faults, prefix);
      var r' := Batch(t, faults, prefix, CRLF);
      var p := infos[n].fullName;
      if p in r'.files && p !in faults.unreadable {
        var x := r'.files[p];
        ConvertToCrlfForm(x);
        ConvertToCrlfUnchangedIff(x);
      }
      forall f | f in infos ensures f in prefix || f == infos[n] {
        assert infos == prefix + [infos[n]];
      }
    }
  }

  /** A run over files that are all in CRLF form already changes nothing. */
  lemma {:induction false} CrlfRunOnCrlfFiles(t: Tally, faults: Faults, infos: seq<FileInfo>)
    requires forall f :: f in infos && f.fullName in t.files && f.fullName !in faults.unreadable ==>
      LfPrecededByCr(t.files[f.fullName])
    ensures Batch(t, faults, infos, CRLF) == t
    decreases |infos|
  {
    if infos != [] {
      var n := |infos| - 1;
      CrlfRunOnCrlfFiles(t, faults, infos[..n]);
      var p := infos[n].fullName;
      if p in t.files && p !in faults.unreadable {
        ConvertToCrlfUnchangedIff(t.files[p]);
      }
    }
  }

  /** With target CRLF and no failing write, a second run over the same list converts
      nothing and writes nothing. */
  lemma CrlfSecondRunIsNoop(files: map<Path, string>, faults: Faults, infos: seq<FileInfo>)
    requires forall f :: f in infos ==> f.fullName !in faults.unwritable
    ensures var first := Batch(Tally(files, 0), faults, infos, CRLF);
      Batch(Tally(first.files, 0), faults, infos, CRLF) == Tally(first.files, 0)
  {
    CrlfRunLeavesCrlfForm(Tally(files, 0), faults, infos);
    CrlfRunOnCrlfFiles(Tally(Batch(Tally(files, 0), faults, infos, CRLF).files, 0), faults, infos);
  }
}
