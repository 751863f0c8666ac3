/**
 * The merge engine as a whole (AfpCombine, its fields and run()): scan every
 * input file, build the renaming table, build the merged formdef, write the
 * resource group, then append every file's documents.
 *
 * The input files are given as the record streams the codec reads from them;
 * the digest (MessageDigest, MD5 by default) and the IBM500 encoding of names
 * are function parameters. The output file is the sequence of items written.
 */
module Combine {
  import opened Wrappers
  import opened Afp
  import Scanner
  import Renaming
  import Formdef
  import Output

  datatype CombineError =
    | ScanFailed(scan: Scanner.ScanError)
    | RenameFailed(rename: Renaming.RenameError)
    | FormdefFailed(formdef: Formdef.FormdefError)
    | WriteFailed(write: Output.WriteError)

  /** scanResources over the files `inputs`, in order: one file record each, and the two registries. */
  function ScanFiles(inputs: seq<seq<Rec>>, digest: seq<byte> -> seq<byte>): (r: Result<Renaming.Tables, Scanner.ScanError>)
    ensures r.Ok? ==> |r.value.files| == |inputs| && AllConsistent(r.value.files) && Renaming.NoRenamings(r.value)
    ensures r.Ok? ==> forall i :: 0 <= i < |r.value.files| ==> MapsNamed(r.value.files[i])
  {
    if |inputs| == 0 then Ok(Renaming.Tables([], [], []))
    else
      var n := |inputs| - 1;
      var t :- ScanFiles(inputs[..n], digest);
      var s :- Scanner.ScanFrom(Scanner.Start(t.resourceNames, t.mmNames), inputs[n], digest);
      Scanner.ScanConsistent(t.resourceNames, t.mmNames, inputs[n], digest);
      Scanner.ScanMapsNamed(t.resourceNames, t.mmNames, inputs[n], digest);
      AllConsistentAppend(t.files, s.file);
      Ok(Renaming.Tables(t.files + [s.file], s.resourceNames, s.mmNames))
  }

  /** One more file: the prefix's tables extended by that file's scan. */
  lemma ScanFilesStep(inputs: seq<seq<Rec>>, digest: seq<byte> -> seq<byte>, i: nat)
    requires i < |inputs|
    ensures var t := ScanFiles(inputs[..i], digest);
            ScanFiles(inputs[..i + 1], digest) ==
              if t.Err? then Err(t.error)
              else
                var s := Scanner.ScanFrom(Scanner.Start(t.value.resourceNames, t.value.mmNames), inputs[i], digest);
                if s.Err? then Err(s.error)
                else Ok(Renaming.Tables(t.value.files + [s.value.file], s.value.resourceNames, s.value.mmNames))
  {
    assert inputs[..i + 1][..i] == inputs[..i];
  }

  lemma {:induction false} ScanFilesPrefixErr(inputs: seq<seq<Rec>>, digest: seq<byte> -> seq<byte>, n: nat)
    requires n <= |inputs| && ScanFiles(inputs[..n], digest).Err?
    ensures ScanFiles(inputs, digest) == ScanFiles(inputs[..n], digest)
    decreases |inputs| - n
  {
    if n < |inputs| {
      assert inputs[..n + 1][..n] == inputs[..n];
      ScanFilesPrefixErr(inputs, digest, n + 1);
    } else {
      assert inputs[..n] == inputs;
    }
  }

  /** The renaming table of scanned files (checkResourceEquality is the constant true). */
  function Renamed(t: Renaming.Tables): (r: Result<Renaming.Tables, Renaming.RenameError>)
    requires AllConsistent(t.files)
    ensures r.Ok? ==> |r.value.files| == |t.files| && AllConsistent(r.value.files)
  {
    Renaming.BuildTable(t, |t.files|, true)
  }

  /** Everything run() writes to the output file, or the exception that ends it. */
  function Merge(inputs: seq<seq<Rec>>, digest: seq<byte> -> seq<byte>, encode: string -> seq<byte>): Result<seq<Output.Out>, CombineError>
  {
    match ScanFiles(inputs, digest)
    case Err(e) => Err(ScanFailed(e))
    case Ok(t0) =>
      match Renamed(t0)
      case Err(e) => Err(RenameFailed(e))
      case Ok(t) =>
        match Formdef.MergedFormdef(t.files)
        case Err(e) => Err(FormdefFailed(e))
        case Ok(fd) =>
          match Output.ResourceGroup(t.files, inputs, fd)
          case Err(e) => Err(WriteFailed(e))
          case Ok(rg) =>
            match Output.AllDocuments(t.files, inputs, encode)
            case Err(e) => Err(WriteFailed(e))
            case Ok(docs) => Ok(rg + docs)
  }

  lemma {:induction false} AllDocumentsPrefixErr(files: seq<InputFile>, inputs: seq<seq<Rec>>, encode: string -> seq<byte>, n: nat)
    requires |inputs| == |files| && n <= |files|
    requires Output.AllDocuments(files[..n], inputs[..n], encode).Err?
    ensures Output.AllDocuments(files, inputs, encode) == Output.AllDocuments(files[..n], inputs[..n], encode)
    decreases |files| - n
  {
    if n < |files| {
      assert files[..n + 1][..n] == files[..n];
      assert inputs[..n + 1][..n] == inputs[..n];
      AllDocumentsPrefixErr(files, inputs, encode, n + 1);
    } else {
      assert files[..n] == files;
      assert inputs[..n] == inputs;
    }
  }

  lemma {:induction false} FilesResourcesPrefixErr(st: Output.GroupState, files: seq<InputFile>, inputs: seq<seq<Rec>>, n: nat)
    requires |inputs| == |files| && AllConsistent(files) && n <= |files|
    requires AllConsistent(files[..n]) && Output.FilesResources(st, files[..n], inputs[..n]).Err?
    ensures Output.FilesResources(st, files, inputs) == Output.FilesResources(st, files[..n], inputs[..n])
    decreases |files| - n
  {
    if n < |files| {
      assert files[..n + 1][..n] == files[..n];
      assert inputs[..n + 1][..n] == inputs[..n];
      AllConsistentPrefix(files, n + 1);
      FilesResourcesPrefixErr(st, files, inputs, n + 1);
    } else {
      assert files[..n] == files;
      assert inputs[..n] == inputs;
    }
  }

  lemma AllDocumentsNext(files: seq<InputFile>, inputs: seq<seq<Rec>>, encode: string -> seq<byte>, i: nat)
    requires |inputs| == |files| && i < |files| && Output.AllDocuments(files[..i], inputs[..i], encode).Ok?
    ensures var d := Output.Documents(files[i], inputs[i], encode);
            Output.AllDocuments(files[..i + 1], inputs[..i + 1], encode) ==
              if d.Ok? then Ok(Output.AllDocuments(files[..i], inputs[..i], encode).value + d.value) else Err(d.error)
  {
    assert files[..i + 1][..i] == files[..i];
    assert inputs[..i + 1][..i] == inputs[..i];
  }

  lemma FilesResourcesNext(st: Output.GroupState, files: seq<InputFile>, inputs: seq<seq<Rec>>, i: nat)
    requires |inputs| == |files| && AllConsistent(files) && i < |files|
    requires AllConsistent(files[..i]) && Output.FilesResources(st, files[..i], inputs[..i]).Ok?
    ensures Consistent(files[i]) && AllConsistent(files[..i + 1])
    ensures Output.FilesResources(st, files[..i + 1], inputs[..i + 1]) ==
            Output.ResourcesFrom(Output.FilesResources(st, files[..i], inputs[..i]).value, files[i], inputs[i], files[i].resources)
  {
    assert files[..i + 1][..i] == files[..i];
    assert inputs[..i + 1][..i] == inputs[..i];
    ConsistentFile(files, i);
    AllConsistentPrefix(files, i + 1);
  }

  /** The inner loop of scanResources: one file's records, read until the scanner has seen the first ERG. */
  method ScanFile(s0: Scanner.ScanState, recs: seq<Rec>, digest: seq<byte> -> seq<byte>) returns (r: Result<Scanner.ScanState, Scanner.ScanError>)
    requires Scanner.Open(s0)
    ensures r == Scanner.ScanFrom(s0, recs, digest)
  {
    var s := s0;
    var j := 0;
    while j < |recs| && !s.done
      invariant 0 <= j <= |recs|
      invariant Scanner.ScanFrom(s0, recs[..j], digest) == Ok(s) && Scanner.Open(s)
    {
      Scanner.ScanFromNext(s0, recs, j, digest);
      var t := Scanner.Step(s, recs[j], digest);
      if t.Err? {
        Scanner.ScanFromPrefixErr(s0, recs, j + 1, digest);
        return t;
      }
      s := t.value;
      j := j + 1;
    }
    Scanner.ScanFromConcat(s0, recs[..j], recs[j..], digest);
    assert recs[..j] + recs[j..] == recs;
    if j < |recs| {
      Scanner.DoneIsFinal(s, recs[j..], digest);
    } else {
      assert recs[j..] == [];
    }
    return Ok(s);
  }

  // ---------------------------------------------------------------------------
  // What the merged file looks like.

  /** The files as the renaming table leaves them, when the whole merge succeeds. */
  function RenamedFiles(inputs: seq<seq<Rec>>, digest: seq<byte> -> seq<byte>, encode: string -> seq<byte>): (files: seq<InputFile>)
    requires Merge(inputs, digest, encode).Ok?
    ensures |files| == |inputs| && AllConsistent(files)
  {
    Renamed(ScanFiles(inputs, digest).value).value.files
  }

  /** The renaming table changes no medium map, so each is still named by its BMM. */
  lemma RenamedMapsNamed(inputs: seq<seq<Rec>>, digest: seq<byte> -> seq<byte>, encode: string -> seq<byte>)
    requires Merge(inputs, digest, encode).Ok?
    ensures var files := RenamedFiles(inputs, digest, encode);
            forall i :: 0 <= i < |files| ==> MapsNamed(files[i])
  {
    var t0 := ScanFiles(inputs, digest).value;
    Renaming.RenamingTableProperties(t0, true);
    var files := RenamedFiles(inputs, digest, encode);
    forall i | 0 <= i < |files|
      ensures MapsNamed(files[i])
    {
      assert Renaming.FileExtends(t0, Renamed(t0).value, i);
    }
  }

  /**
   * The output file is one resource group and then every file's documents: the
   * group opens with the merged formdef as an inline form map, then holds each
   * resource of each file exactly once under its final key and no form map,
   * and closes with an ERG. Which occurrence of a key is written is stated by
   * MergeFirstWriter.
   */
  lemma MergeLayout(inputs: seq<seq<Rec>>, digest: seq<byte> -> seq<byte>, encode: string -> seq<byte>)
    requires Merge(inputs, digest, encode).Ok?
    ensures var files := RenamedFiles(inputs, digest, encode);
            var fd := Formdef.MergedFormdef(files);
            var st := Output.FilesResources(Output.GroupState([], []), files, inputs);
            var docs := Output.AllDocuments(files, inputs, encode);
            && fd.Ok? && st.Ok? && docs.Ok?
            && Merge(inputs, digest, encode).value ==
                 [Output.OutField(BRG([]))] + Output.InlineFormdef(fd.value) + st.value.out + [Output.OutField(ERG([]))] + docs.value
            && fd.value[0] == BFM([]) && fd.value[|fd.value| - 1] == EFM([])
            && Formdef.Distinct(Formdef.BmmNames(fd.value))
            && (forall i, n :: 0 <= i < |files| && n in files[i].mmNames ==>
                  Formdef.FinalName(files[i], n) in Formdef.BmmNames(fd.value))
            && Output.Unique(st.value.written)
            && (forall k :: k in st.value.written ==> k.objType != FormMap)
            && Output.Layout(st.value)
            && (forall i, k :: 0 <= i < |files| && k in files[i].resources && k.objType != FormMap ==>
                  Output.FinalKey(files[i], k) in st.value.written)
  {
    var files := RenamedFiles(inputs, digest, encode);
    RenamedMapsNamed(inputs, digest, encode);
    Formdef.MergedFormdefProperties(files);
    Output.ResourceGroupProperties(files, inputs);
  }

  /**
   * In the merged file, the n-th resource of the resource group is the copy
   * (BRS, body, ERS, renamed when renamed) of the first listed occurrence of
   * the n-th final key, taking the files in order and each file's resource
   * list in order. An occurrence names a file and a key, so it copies the
   * file's position entry for the key: the entry of the last BRS of that key
   * when the file begins it more than once.
   */
  lemma MergeFirstWriter(inputs: seq<seq<Rec>>, digest: seq<byte> -> seq<byte>, encode: string -> seq<byte>)
    requires Merge(inputs, digest, encode).Ok?
    ensures var files := RenamedFiles(inputs, digest, encode);
            var st := Output.FilesResources(Output.GroupState([], []), files, inputs);
            var os := Output.Occurrences(files);
            && st.Ok?
            && st.value.written == Output.Dedup(Output.Finals(files, os))
            && |st.value.out| == 3 * |st.value.written|
            && forall n :: 0 <= n < |st.value.written| ==>
                 && st.value.written[n] in Output.Finals(files, os)
                 && Output.CopiedAs(files, inputs, os[Output.FirstIndex(Output.Finals(files, os), st.value.written[n])],
                                    st.value.out[3 * n..3 * n + 3])
  {
    var files := RenamedFiles(inputs, digest, encode);
    Output.ResourceGroupFirstWriter(files, inputs);
  }

  /** ScanFiles scans the first file from empty registries. */
  lemma {:induction false} ScanFilesFirst(inputs: seq<seq<Rec>>, digest: seq<byte> -> seq<byte>)
    requires |inputs| > 0 && ScanFiles(inputs, digest).Ok?
    ensures var s := Scanner.ScanFrom(Scanner.Start([], []), inputs[0], digest);
            s.Ok? && ScanFiles(inputs, digest).value.files[0] == s.value.file
  {
    var n := |inputs| - 1;
    if n > 0 {
      assert inputs[..n][0] == inputs[0];
      ScanFilesFirst(inputs[..n], digest);
    }
  }

  /** The documents of the first file come first. */
  lemma {:induction false} AllDocumentsFirst(files: seq<InputFile>, inputs: seq<seq<Rec>>, encode: string -> seq<byte>)
    requires |inputs| == |files| > 0 && Output.AllDocuments(files, inputs, encode).Ok?
    ensures var d := Output.Documents(files[0], inputs[0], encode);
            var all := Output.AllDocuments(files, inputs, encode).value;
            d.Ok? && |d.value| <= |all| && all[..|d.value|] == d.value
  {
    var n := |files| - 1;
    if n > 0 {
      assert files[..n][0] == files[0];
      assert inputs[..n][0] == inputs[0];
      AllDocumentsFirst(files[..n], inputs[..n], encode);
    }
  }

  /** The renaming table leaves the first file as its scan found it: no renamings, documents right after its first ERG. */
  lemma FirstFileKept(inputs: seq<seq<Rec>>, digest: seq<byte> -> seq<byte>, e: nat)
    requires |inputs| > 0 && Scanner.Framed(inputs[0])
    requires e < |inputs[0]| && inputs[0][e].field.ERG?
    requires forall j :: 0 <= j < e ==> !inputs[0][j].field.ERG?
    requires ScanFiles(inputs, digest).Ok? && Renamed(ScanFiles(inputs, digest).value).Ok?
    ensures var f := Renamed(ScanFiles(inputs, digest).value).value.files[0];
            f.documentStart == Offset(inputs[0], e + 1) && f.renamings == map[] && f.renameIMM == map[]
  {
    var t0 := ScanFiles(inputs, digest).value;
    ScanFilesFirst(inputs, digest);
    Scanner.FirstErgEndsScan([], [], inputs[0], e, digest);
    Scanner.ScanConsistent([], [], inputs[0], digest);
    Renaming.RenamingTableProperties(t0, true);
  }

  /** Documents that start at record `b`, in a file that renames nothing, are copied verbatim. */
  lemma DocumentsVerbatim(f: InputFile, recs: seq<Rec>, encode: string -> seq<byte>, b: nat)
    requires Scanner.Framed(recs) && b <= |recs|
    requires f.documentStart == Offset(recs, b) && f.renamings == map[] && f.renameIMM == map[]
    ensures Output.Documents(f, recs, encode).Ok? ==> Output.Documents(f, recs, encode).value == Output.Verbatim(recs[b..])
  {
    assert Output.Boundary(recs, f.documentStart) == Some(b) by {
      assert Output.BoundaryFrom(recs, f.documentStart, 0).Some?;
      var j := Output.BoundaryFrom(recs, f.documentStart, 0).value;
      if j < b {
        Scanner.OffsetStrict(recs, j, b);
      } else if j > b {
        Scanner.OffsetStrict(recs, b, j);
      }
    }
    Output.NothingRenamedVerbatim(f, recs[b..], encode);
  }

  /** A file is its bytes up to record `b` followed by the raw bytes of the records from `b` on. */
  lemma SplitBytes(recs: seq<Rec>, b: nat)
    requires b <= |recs|
    ensures Bytes(recs) == Bytes(recs[..b]) + Output.RawBytes(Output.Verbatim(recs[b..]))
  {
    Output.VerbatimBytes(recs, b);
    BytesPrefix(recs, b, |recs|);
    assert recs[..|recs|] == recs;
    SplitAt(Bytes(recs), Offset(recs, b));
  }

  /**
   * The first file keeps all its names, so its documents, everything after its
   * first ERG, are copied into the output byte for byte, before any other file's.
   */
  lemma FirstFileVerbatim(inputs: seq<seq<Rec>>, digest: seq<byte> -> seq<byte>, encode: string -> seq<byte>, e: nat)
    requires Merge(inputs, digest, encode).Ok? && |inputs| > 0
    requires Scanner.Framed(inputs[0])
    requires e < |inputs[0]| && inputs[0][e].field.ERG?
    requires forall j :: 0 <= j < e ==> !inputs[0][j].field.ERG?
    ensures var docs := Output.AllDocuments(RenamedFiles(inputs, digest, encode), inputs, encode);
            var first := Output.Verbatim(inputs[0][e + 1..]);
            && docs.Ok? && |first| <= |docs.value| && docs.value[..|first|] == first
            && Bytes(inputs[0]) == Bytes(inputs[0][..e + 1]) + Output.RawBytes(first)
  {
    var files := RenamedFiles(inputs, digest, encode);
    FirstFileKept(inputs, digest, e);
    AllDocumentsFirst(files, inputs, encode);
    DocumentsVerbatim(files[0], inputs[0], encode, e + 1);
    SplitBytes(inputs[0], e + 1);
  }

  /** The merge engine: its inputs, and the state its phases fill in. */
  class AfpCombine {
    const inputs: seq<seq<Rec>>
    const digest: seq<byte> -> seq<byte>
    const encode: string -> seq<byte>
    const checkResourceEquality: bool := true

    var files: seq<InputFile>
    var resourceNames: seq<string>
    var mmNames: seq<string>
    var formdef: seq<Field>
    var output: seq<Output.Out>

    ghost function Tables(): Renaming.Tables
      reads this
    {
      Renaming.Tables(files, resourceNames, mmNames)
    }

    /** One empty file record per input file; no registered names; nothing written. */
    ghost predicate Fresh()
      reads this
    {
      files == seq(|inputs|, _ => EmptyFile) && resourceNames == [] && mmNames == [] && output == []
    }

    constructor(inputs: seq<seq<Rec>>, digest: seq<byte> -> seq<byte>, encode: string -> seq<byte>)
      ensures this.inputs == inputs && this.digest == digest && this.encode == encode
      ensures Fresh() && formdef == []
    {
      this.inputs := inputs;
      this.digest := digest;
      this.encode := encode;
      files := seq(|inputs|, _ => EmptyFile);
      resourceNames := [];
      mmNames := [];
      formdef := [];
      output := [];
    }

    /** scanResources: every file in turn, each read up to its first ERG. */
    method ScanResources() returns (r: Result<(), Scanner.ScanError>)
      requires Fresh()
      modifies this
      ensures formdef == old(formdef) && output == old(output)
      ensures r.Ok? <==> ScanFiles(inputs, digest).Ok?
      ensures r.Ok? ==> Tables() == ScanFiles(inputs, digest).value
      ensures r.Err? ==> ScanFiles(inputs, digest) == Err(r.error)
    {
      var i := 0;
      while i < |inputs|
        invariant 0 <= i <= |inputs| && |files| == |inputs|
        invariant ScanFiles(inputs[..i], digest) == Ok(Renaming.Tables(files[..i], resourceNames, mmNames))
        invariant formdef == old(formdef) && output == old(output)
      {
        ScanFilesStep(inputs, digest, i);
        var s := ScanFile(Scanner.Start(resourceNames, mmNames), inputs[i], digest);
        if s.Err? {
          ScanFilesPrefixErr(inputs, digest, i + 1);
          return Err(s.error);
        }
        files := files[i := s.value.file];
        resourceNames := s.value.resourceNames;
        mmNames := s.value.mmNames;
        assert files[..i + 1] == files[..i] + [s.value.file];
        i := i + 1;
      }
      assert inputs[..i] == inputs;
      assert files[..i] == files;
      return Ok(());
    }

    /** One pair of buildRenamingTable: file `i` (earlier) against file `j` (later). */
    method ComparePair(i: nat, j: nat) returns (r: Result<(), Renaming.RenameError>)
      requires i < j < |files| && AllConsistent(files)
      modifies this
      ensures formdef == old(formdef) && output == old(output)
      ensures r.Ok? ==> Renaming.ComparePair(old(Tables()), i, j, checkResourceEquality) == Ok(Tables())
      ensures r.Err? ==> Renaming.ComparePair(old(Tables()), i, j, checkResourceEquality) == Err(r.error)
    {
      var f1, f2 := files[i], files[j];
      ConsistentFile(files, i);
      ConsistentFile(files, j);
      var rs := Renaming.ResolveKeys(Renaming.ResourceView(f1), f1.renamings, Renaming.ResourceView(f2),
                                     Renaming.Names(f2.renamings, resourceNames), f1.resources,
                                     Renaming.ResourceName, checkResourceEquality);
      if rs.Err? {
        return Err(rs.error);
      }
      var ms := Renaming.ResolveKeys(Renaming.MediumMapView(f1), f1.renameIMM, Renaming.MediumMapView(f2),
                                     Renaming.Names(f2.renameIMM, mmNames), f1.mmNames,
                                     Renaming.MediumMapName, checkResourceEquality);
      if ms.Err? {
        return Err(ms.error);
      }
      files := files[j := f2.(renamings := rs.value.renames, renameIMM := ms.value.renames)];
      resourceNames := rs.value.registry;
      mmNames := ms.value.registry;
      return Ok(());
    }

    /** The inner loop of buildRenamingTable: file `i` against every later file. */
    method CompareRow(i: nat) returns (r: Result<(), Renaming.RenameError>)
      requires i < |files| && AllConsistent(files)
      modifies this
      ensures formdef == old(formdef) && output == old(output)
      ensures r.Ok? ==> Renaming.CompareRow(old(Tables()), i, |old(files)|, checkResourceEquality) == Ok(Tables())
      ensures r.Err? ==> Renaming.CompareRow(old(Tables()), i, |old(files)|, checkResourceEquality) == Err(r.error)
    {
      ghost var u := old(Tables());
      var n := |files|;
      assert n == |old(files)|;
      var j := i + 1;
      while j < n
        invariant i + 1 <= j <= n == |files| == |u.files|
        invariant Renaming.CompareRow(u, i, j, checkResourceEquality) == Ok(Tables())
        invariant AllConsistent(files)
        invariant formdef == old(formdef) && output == old(output)
      {
        ghost var t0 := Tables();
        var e := ComparePair(i, j);
        if e.Err? {
          Renaming.CompareRowFailsAt(u, i, j, n, checkResourceEquality, t0, e.error);
          return Err(e.error);
        }
        Renaming.CompareRowNext(u, i, j, checkResourceEquality, t0);
        j := j + 1;
      }
      return Ok(());
    }

    /** buildRenamingTable: every file against every later file. */
    method BuildRenamingTable() returns (r: Result<(), Renaming.RenameError>)
      requires AllConsistent(files)
      modifies this
      ensures formdef == old(formdef) && output == old(output)
      ensures r.Ok? <==> Renamed(old(Tables())).Ok?
      ensures r.Ok? ==> Tables() == Renamed(old(Tables())).value
      ensures r.Err? ==> Renamed(old(Tables())) == Err(r.error)
    {
      ghost var t0 := Tables();
      var n := |files|;
      var i := 0;
      while i < n
        invariant 0 <= i <= n == |files| == |t0.files|
        invariant Renaming.BuildTable(t0, i, checkResourceEquality) == Ok(Tables())
        invariant AllConsistent(files)
        invariant formdef == old(formdef) && output == old(output)
      {
        var e := CompareRow(i);
        if e.Err? {
          Renaming.BuildTableErr(t0, i + 1, n, checkResourceEquality);
          return Err(e.error);
        }
        i := i + 1;
      }
      return Ok(());
    }

    /** buildFormdef: BFM, every distinct medium map of every file, EFM. */
    method BuildFormdef() returns (r: Result<(), Formdef.FormdefError>)
      requires AllConsistent(files)
      modifies this
      ensures files == old(files) && resourceNames == old(resourceNames) && mmNames == old(mmNames) && output == old(output)
      ensures r.Ok? ==> Formdef.MergedFormdef(files) == Ok(formdef)
      ensures r.Err? ==> Formdef.MergedFormdef(files) == Err(r.error)
    {
      var st0 := Formdef.FormdefState([BFM([])], []);
      var st := st0;
      var i := 0;
      while i < |files|
        invariant 0 <= i <= |files|
        invariant AllConsistent(files)
        invariant files == old(files) && resourceNames == old(resourceNames) && mmNames == old(mmNames) && output == old(output)
        invariant AllConsistent(files[..i]) && Formdef.FilesFrom(st0, files[..i]) == Ok(st)
      {
        Formdef.FilesFromStep(st0, files, i);
        ConsistentFile(files, i);
        var f := files[i];
        var bdg := Formdef.EnvironmentGroup(f.formdef);
        var m := Formdef.WriteMaps(st, f, bdg);
        if m.Err? {
          Formdef.FilesFromPrefixErr(st0, files, i + 1);
          return Err(m.error);
        }
        st := m.value;
        i := i + 1;
      }
      assert files[..i] == files;
      formdef := st.out + [EFM([])];
      return Ok(());
    }

    /** writeResourceGroup: the output file is created afresh and holds the resource group. */
    method WriteResourceGroup() returns (r: Result<(), Output.WriteError>)
      requires |inputs| == |files| && AllConsistent(files)
      modifies this
      ensures files == old(files) && resourceNames == old(resourceNames) && mmNames == old(mmNames) && formdef == old(formdef)
      ensures r.Ok? ==> Output.ResourceGroup(files, inputs, formdef) == Ok(output)
      ensures r.Err? ==> Output.ResourceGroup(files, inputs, formdef) == Err(r.error)
    {
      var st0 := Output.GroupState([], []);
      var st := st0;
      var i := 0;
      while i < |files|
        invariant 0 <= i <= |files|
        invariant |files| == |inputs| && AllConsistent(files)
        invariant files == old(files) && resourceNames == old(resourceNames) && mmNames == old(mmNames) && formdef == old(formdef)
        invariant AllConsistent(files[..i]) && Output.FilesResources(st0, files[..i], inputs[..i]) == Ok(st)
      {
        FilesResourcesNext(st0, files, inputs, i);
        var g := Output.WriteFileResources(st, files[i], inputs[i]);
        if g.Err? {
          FilesResourcesPrefixErr(st0, files, inputs, i + 1);
          return Err(g.error);
        }
        st := g.value;
        i := i + 1;
      }
      assert files[..i] == files;
      assert inputs[..i] == inputs;
      output := [Output.OutField(BRG([]))] + Output.InlineFormdef(formdef) + st.out + [Output.OutField(ERG([]))];
      return Ok(());
    }

    /** writeDocuments: each file's documents, appended to the output file. */
    method WriteDocuments() returns (r: Result<(), Output.WriteError>)
      requires |inputs| == |files|
      modifies this`output
      ensures r.Ok? ==> Output.AllDocuments(files, inputs, encode).Ok? &&
                        output == old(output) + Output.AllDocuments(files, inputs, encode).value
      ensures r.Err? ==> Output.AllDocuments(files, inputs, encode) == Err(r.error)
    {
      var i := 0;
      while i < |files|
        invariant 0 <= i <= |files| == |inputs|
        invariant Output.AllDocuments(files[..i], inputs[..i], encode).Ok?
        invariant output == old(output) + Output.AllDocuments(files[..i], inputs[..i], encode).value
      {
        AllDocumentsNext(files, inputs, encode, i);
        var d := Output.FilterDocuments(files[i], inputs[i], encode);
        if d.Err? {
          AllDocumentsPrefixErr(files, inputs, encode, i + 1);
          return Err(d.error);
        }
        AppendAssoc(old(output), Output.AllDocuments(files[..i], inputs[..i], encode).value, d.value);
        output := output + d.value;
        i := i + 1;
      }
      assert files[..i] == files;
      assert inputs[..i] == inputs;
      return Ok(());
    }

    /** run(): the five phases in order; the first exception ends it. */
    method Run() returns (r: Result<(), CombineError>)
      requires Fresh()
      modifies this
      ensures r.Ok? <==> Merge(inputs, digest, encode).Ok?
      ensures r.Ok? ==> output == Merge(inputs, digest, encode).value
      ensures r.Err? ==> Merge(inputs, digest, encode) == Err(r.error)
    {
      var s := ScanResources();
      if s.Err? {
        return Err(ScanFailed(s.error));
      }
      var b := BuildRenamingTable();
      if b.Err? {
        return Err(RenameFailed(b.error));
      }
      var f := BuildFormdef();
      if f.Err? {
        return Err(FormdefFailed(f.error));
      }
      var w := WriteResourceGroup();
      if w.Err? {
        return Err(WriteFailed(w.error));
      }
      var d := WriteDocuments();
      if d.Err? {
        return Err(WriteFailed(d.error));
      }
      return Ok(());
    }
  }
}
