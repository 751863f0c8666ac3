/**
 * The merged form definition (AfpCombine.buildFormdef and add): one formdef
 * holding every distinct medium map of every input file, under its final
 * name, each completed from its file's document environment group where the
 * map itself lacks a kind of field.
 */
module Formdef {
  import opened Wrappers
  import opened Afp

  // ---------------------------------------------------------------------------
  // The document environment group

  /** The loop over a formdef's fields: a BDG opens the group, an EDG closes it, and neither is kept. */
  function EnvScan(fs: seq<Field>): (r: (bool, seq<Field>))
  {
    if |fs| == 0 then (false, [])
    else
      var (open, group) := EnvScan(fs[..|fs| - 1]);
      var f := fs[|fs| - 1];
      if f.BDG? then (true, group)
      else
        var open' := if f.EDG? then false else open;
        (open', if open' then group + [f] else group)
  }

  function EnvGroup(fs: seq<Field>): seq<Field>
  {
    EnvScan(fs).1
  }

  /** The fields strictly between each BDG and the EDG that follows, read front to back. */
  function Bracketed(fs: seq<Field>, open: bool): seq<Field>
    decreases |fs|
  {
    if |fs| == 0 then []
    else if fs[0].BDG? then Bracketed(fs[1..], true)
    else if fs[0].EDG? then Bracketed(fs[1..], false)
    else (if open then [fs[0]] else []) + Bracketed(fs[1..], open)
  }

  lemma {:induction false} BracketedSnoc(fs: seq<Field>, open: bool, f: Field)
    ensures Bracketed(fs + [f], open) ==
            Bracketed(fs, open) + (if !f.BDG? && !f.EDG? && EnvScan'(fs, open) then [f] else [])
    decreases |fs|
  {
    if |fs| > 0 {
      assert (fs + [f])[1..] == fs[1..] + [f];
      if fs[0].BDG? {
        BracketedSnoc(fs[1..], true, f);
      } else if fs[0].EDG? {
        BracketedSnoc(fs[1..], false, f);
      } else {
        BracketedSnoc(fs[1..], open, f);
      }
    }
  }

  /** Whether the group is open after `fs`, starting from `open`, read front to back. */
  function EnvScan'(fs: seq<Field>, open: bool): bool
    decreases |fs|
  {
    if |fs| == 0 then open
    else if fs[0].BDG? then EnvScan'(fs[1..], true)
    else if fs[0].EDG? then EnvScan'(fs[1..], false)
    else EnvScan'(fs[1..], open)
  }

  lemma {:induction false} EnvScanOpenSnoc(fs: seq<Field>, open: bool, f: Field)
    ensures EnvScan'(fs + [f], open) == if f.BDG? then true else if f.EDG? then false else EnvScan'(fs, open)
    decreases |fs|
  {
    if |fs| > 0 {
      assert (fs + [f])[1..] == fs[1..] + [f];
      if fs[0].BDG? {
        EnvScanOpenSnoc(fs[1..], true, f);
      } else if fs[0].EDG? {
        EnvScanOpenSnoc(fs[1..], false, f);
      } else {
        EnvScanOpenSnoc(fs[1..], open, f);
      }
    }
  }

  /** The loop collects exactly the bracketed fields. */
  lemma {:induction false} EnvGroupIsBracketed(fs: seq<Field>)
    ensures EnvScan(fs) == (EnvScan'(fs, false), Bracketed(fs, false))
    decreases |fs|
  {
    if |fs| > 0 {
      var init, f := fs[..|fs| - 1], fs[|fs| - 1];
      assert fs == init + [f];
      EnvGroupIsBracketed(init);
      assert EnvScan(fs) == (if f.BDG? then (true, EnvScan(init).1)
                             else var open' := if f.EDG? then false else EnvScan(init).0;
                                  (open', if open' then EnvScan(init).1 + [f] else EnvScan(init).1));
      BracketedSnoc(init, false, f);
      EnvScanOpenSnoc(init, false, f);
      assert EnvScan(fs).0 == EnvScan'(fs, false);
      assert EnvScan(fs).1 == Bracketed(fs, false);
    }
  }

  /** The group holds fields of the formdef, never a BDG or an EDG. */
  lemma {:induction false} EnvGroupFields(fs: seq<Field>)
    ensures forall x :: x in EnvGroup(fs) ==> x in fs && !x.BDG? && !x.EDG?
    decreases |fs|
  {
    if |fs| > 0 {
      EnvGroupFields(fs[..|fs| - 1]);
    }
  }

  /** A formdef without a BDG has an empty environment group. */
  lemma NoBdgNoGroup(fs: seq<Field>)
    requires forall i :: 0 <= i < |fs| ==> !fs[i].BDG?
    ensures EnvGroup(fs) == []
  {
    EnvGroupIsBracketed(fs);
    NoBdgBracketed(fs);
  }

  lemma {:induction false} NoBdgBracketed(fs: seq<Field>)
    requires forall i :: 0 <= i < |fs| ==> !fs[i].BDG?
    ensures Bracketed(fs, false) == []
    decreases |fs|
  {
    if |fs| > 0 {
      NoBdgBracketed(fs[1..]);
    }
  }

  // ---------------------------------------------------------------------------
  // The kinds of field a medium map may carry, in the order they are written

  datatype Category = AttrOf(kind: AttrKind) | OverlaysOf | PageOverlaysOf | ResourcesOf

  /** FGD, MMO, MPO, MMT, MMD, MDR, PGP (with PGP1), MDD, MCC, MMC, PMC, MFC, PEC. */
  const Categories: seq<Category> :=
    [AttrOf(FGD), OverlaysOf, PageOverlaysOf, AttrOf(MMT), AttrOf(MMD), ResourcesOf, AttrOf(PGP),
     AttrOf(MDD), AttrOf(MCC), AttrOf(MMC), AttrOf(PMC), AttrOf(MFC), AttrOf(PEC)]

  /** clazz.isInstance(sf), where a PGP1 also counts as a PGP. */
  predicate InCategory(f: Field, c: Category)
  {
    match c
    case AttrOf(k) => f.Attr? && (f.kind == k || (k == PGP && f.kind == PGP1))
    case OverlaysOf => f.MMO?
    case PageOverlaysOf => f.MPO?
    case ResourcesOf => f.MDR?
  }

  /** The fields of `fs` of category `c`, in order. */
  function Select(fs: seq<Field>, c: Category): (r: seq<Field>)
    ensures |r| <= |fs|
  {
    if |fs| == 0 then []
    else
      var f := fs[|fs| - 1];
      Select(fs[..|fs| - 1], c) + (if InCategory(f, c) then [f] else [])
  }

  /** A field is selected exactly when it is one of `fs` and of the category. */
  lemma {:induction false} SelectMembers(fs: seq<Field>, c: Category)
    ensures forall x :: x in Select(fs, c) <==> x in fs && InCategory(x, c)
    decreases |fs|
  {
    if |fs| > 0 {
      var fs', f := fs[..|fs| - 1], fs[|fs| - 1];
      SelectMembers(fs', c);
      assert fs == fs' + [f];
    }
  }

  /** Selection distributes over concatenation; with SelectSingle, it keeps the fields of the category
      in their order and with their multiplicity. */
  lemma {:induction false} SelectConcat(a: seq<Field>, b: seq<Field>, c: Category)
    ensures Select(a + b, c) == Select(a, c) + Select(b, c)
    decreases |b|
  {
    if |b| == 0 {
      assert a + b == a;
    } else {
      var b', f := b[..|b| - 1], b[|b| - 1];
      var last := if InCategory(f, c) then [f] else [];
      var ab := a + b;
      assert ab[..|ab| - 1] == a + b';
      assert ab[|ab| - 1] == f;
      assert Select(ab, c) == Select(ab[..|ab| - 1], c) + last;
      SelectConcat(a, b', c);
      assert Select(b, c) == Select(b', c) + last;
      assert (Select(a, c) + Select(b', c)) + last == Select(a, c) + (Select(b', c) + last);
    }
  }

  lemma SelectSingle(f: Field, c: Category)
    ensures Select([f], c) == if InCategory(f, c) then [f] else []
  {
    assert [f][..0] == [];
  }

  /** AfpCombine.add: the map's own fields of the category, or else the environment group's. */
  function Add(bdg: seq<Field>, sfs: seq<Field>, c: Category): (r: seq<Field>)
  {
    var own := Select(sfs, c);
    if |own| > 0 then own else Select(bdg, c)
  }

  /** Add never mixes the two sources: it takes all of the map's fields of the category, or, if it has none, all of the group's. */
  lemma AddSource(bdg: seq<Field>, sfs: seq<Field>, c: Category)
    ensures (exists x :: x in sfs && InCategory(x, c)) ==>
              forall x :: x in Add(bdg, sfs, c) <==> x in sfs && InCategory(x, c)
    ensures (forall x :: x in sfs ==> !InCategory(x, c)) ==>
              forall x :: x in Add(bdg, sfs, c) <==> x in bdg && InCategory(x, c)
  {
    SelectMembers(sfs, c);
    SelectMembers(bdg, c);
    if exists x :: x in sfs && InCategory(x, c) {
      var x :| x in sfs && InCategory(x, c);
      assert x in Select(sfs, c);
    } else if |Select(sfs, c)| > 0 {
      assert Select(sfs, c)[0] in Select(sfs, c);
    }
  }

  /** The fields written between a map's BMM and its EMM: each category in turn. */
  function MapBody(bdg: seq<Field>, sfs: seq<Field>, cs: seq<Category>): seq<Field>
  {
    if |cs| == 0 then [] else MapBody(bdg, sfs, cs[..|cs| - 1]) + Add(bdg, sfs, cs[|cs| - 1])
  }

  /** Every field of a map body is of one of the categories: in particular none is a BMM or an EMM. */
  lemma {:induction false} MapBodyCategories(bdg: seq<Field>, sfs: seq<Field>, cs: seq<Category>)
    ensures forall x :: x in MapBody(bdg, sfs, cs) ==> exists c :: c in cs && InCategory(x, c)
    ensures forall x :: x in MapBody(bdg, sfs, cs) ==> !x.BMM? && !x.EMM?
    decreases |cs|
  {
    if |cs| > 0 {
      MapBodyCategories(bdg, sfs, cs[..|cs| - 1]);
      forall x | x in MapBody(bdg, sfs, cs)
        ensures exists c :: c in cs && InCategory(x, c)
      {
        if x !in MapBody(bdg, sfs, cs[..|cs| - 1]) {
          assert x in Add(bdg, sfs, cs[|cs| - 1]);
          SelectMembers(sfs, cs[|cs| - 1]);
          SelectMembers(bdg, cs[|cs| - 1]);
          assert InCategory(x, cs[|cs| - 1]);
        }
      }
    }
  }

  // ---------------------------------------------------------------------------
  // The merged formdef

  /** The names of the BMM fields of `fs`, in order. */
  function BmmNames(fs: seq<Field>): seq<string>
  {
    if |fs| == 0 then []
    else BmmNames(fs[..|fs| - 1]) + (if fs[|fs| - 1].BMM? then [fs[|fs| - 1].mmName] else [])
  }

  lemma {:induction false} BmmNamesConcat(a: seq<Field>, b: seq<Field>)
    ensures BmmNames(a + b) == BmmNames(a) + BmmNames(b)
    decreases |b|
  {
    if |b| == 0 {
      assert a + b == a;
    } else {
      assert (a + b)[..|a + b| - 1] == a + b[..|b| - 1];
      BmmNamesConcat(a, b[..|b| - 1]);
    }
  }

  lemma {:induction false} BmmNamesNone(fs: seq<Field>)
    requires forall x :: x in fs ==> !x.BMM?
    ensures BmmNames(fs) == []
    decreases |fs|
  {
    if |fs| > 0 {
      BmmNamesNone(fs[..|fs| - 1]);
    }
  }

  datatype FormdefError =
    | EmptyMediumMap(name: string)   // it.next() on an empty list
    | NotBmm(name: string)           // the cast of the map's first field to BMM

  /** The formdef built so far and the names of the medium maps already written (mmsWritten). */
  datatype FormdefState = FormdefState(out: seq<Field>, written: seq<string>)

  /** The medium map `mmName` of file `f`, with the file's environment group `bdg`. */
  function MapStep(st: FormdefState, f: InputFile, bdg: seq<Field>, mmName: string): (r: Result<FormdefState, FormdefError>)
    requires mmName in f.mediumMaps
  {
    var sfs := f.mediumMaps[mmName].sfs;
    if |sfs| == 0 then Err(EmptyMediumMap(mmName))
    else if !sfs[0].BMM? then Err(NotBmm(mmName))
    else
      var bmm := sfs[0];
      if mmName in f.renameIMM && f.renameIMM[mmName] in st.written then Ok(st)
      else if mmName !in f.renameIMM && mmName in st.written then Ok(st)
      else
        var written := if mmName in f.renameIMM then bmm.(mmName := f.renameIMM[mmName]) else bmm;
        Ok(FormdefState(st.out + [written] + MapBody(bdg, sfs, Categories) + [EMM([])], st.written + [written.mmName]))
  }

  /** The medium maps `mms` of one file, in order. */
  function MapsFrom(st: FormdefState, f: InputFile, bdg: seq<Field>, mms: seq<string>): (r: Result<FormdefState, FormdefError>)
    requires forall n :: n in mms ==> n in f.mediumMaps
  {
    if |mms| == 0 then Ok(st)
    else
      var st' :- MapsFrom(st, f, bdg, mms[..|mms| - 1]);
      MapStep(st', f, bdg, mms[|mms| - 1])
  }

  /** The files `files`, in order, each with its own environment group. */
  function FilesFrom(st: FormdefState, files: seq<InputFile>): (r: Result<FormdefState, FormdefError>)
    requires AllConsistent(files)
  {
    if |files| == 0 then Ok(st)
    else
      AllConsistentPrefix(files, |files| - 1);
      var st' :- FilesFrom(st, files[..|files| - 1]);
      var f := files[|files| - 1];
      MapsFrom(st', f, EnvGroup(f.formdef), f.mmNames)
  }

  /** One more file: the prefix's state extended by that file's maps. */
  lemma FilesFromStep(st: FormdefState, files: seq<InputFile>, i: nat)
    requires i < |files| && AllConsistent(files)
    ensures AllConsistent(files[..i]) && AllConsistent(files[..i + 1]) && Consistent(files[i])
    ensures var p := FilesFrom(st, files[..i]);
            var f := files[i];
            FilesFrom(st, files[..i + 1]) == if p.Err? then Err(p.error) else MapsFrom(p.value, f, EnvGroup(f.formdef), f.mmNames)
  {
    AllConsistentPrefix(files, i);
    AllConsistentPrefix(files, i + 1);
    assert files[..i + 1][..i] == files[..i];
  }

  /** BFM, the medium maps, EFM. */
  function MergedFormdef(files: seq<InputFile>): (r: Result<seq<Field>, FormdefError>)
    requires AllConsistent(files)
  {
    var st :- FilesFrom(FormdefState([BFM([])], []), files);
    Ok(st.out + [EFM([])])
  }

  // ---------------------------------------------------------------------------
  // What the merged formdef guarantees

  predicate Distinct(s: seq<string>)
  {
    forall i, j :: 0 <= i < j < |s| ==> s[i] != s[j]
  }

  /** The BMM names written so far are the `written` list, and they are distinct. */
  ghost predicate Written(st: FormdefState)
  {
    BmmNames(st.out) == st.written && Distinct(st.written)
  }

  /** The name under which the file's medium map ends up in the merged formdef. */
  function FinalName(f: InputFile, mmName: string): string
  {
    if mmName in f.renameIMM then f.renameIMM[mmName] else mmName
  }

  /** Appending one medium map adds exactly its BMM's name. */
  lemma AppendMapNames(out: seq<Field>, w: Field, body: seq<Field>)
    requires w.BMM? && forall x :: x in body ==> !x.BMM?
    ensures BmmNames(out + [w] + body + [EMM([])]) == BmmNames(out) + [w.mmName]
  {
    BmmNamesNone(body + [EMM([])]);
    BmmNamesConcat(out, [w]);
    assert BmmNames([w]) == [w.mmName] by { assert [w][..0] == []; }
    BmmNamesConcat(out + [w], body + [EMM([])]);
    assert out + [w] + body + [EMM([])] == (out + [w]) + (body + [EMM([])]);
  }

  lemma MapStepWritten(st: FormdefState, f: InputFile, bdg: seq<Field>, mmName: string)
    requires mmName in f.mediumMaps && MapsNamed(f) && Written(st)
    ensures var r := MapStep(st, f, bdg, mmName);
            r.Ok? ==> Written(r.value) && st.written <= r.value.written && FinalName(f, mmName) in r.value.written
  {
    var sfs := f.mediumMaps[mmName].sfs;
    if |sfs| > 0 && sfs[0].BMM? {
      var bmm := sfs[0];
      var w := if mmName in f.renameIMM then bmm.(mmName := f.renameIMM[mmName]) else bmm;
      assert w.mmName == FinalName(f, mmName);
      if FinalName(f, mmName) !in st.written {
        var body := MapBody(bdg, sfs, Categories);
        MapBodyCategories(bdg, sfs, Categories);
        AppendMapNames(st.out, w, body);
        assert MapStep(st, f, bdg, mmName) == Ok(FormdefState(st.out + [w] + body + [EMM([])], st.written + [w.mmName]));
      }
    }
  }

  lemma {:induction false} MapsFromWritten(st: FormdefState, f: InputFile, bdg: seq<Field>, mms: seq<string>)
    requires forall n :: n in mms ==> n in f.mediumMaps
    requires MapsNamed(f) && Written(st)
    ensures var r := MapsFrom(st, f, bdg, mms);
            r.Ok? ==> Written(r.value) && st.written <= r.value.written &&
                      forall n :: n in mms ==> FinalName(f, n) in r.value.written
    decreases |mms|
  {
    if |mms| > 0 {
      var init := mms[..|mms| - 1];
      MapsFromWritten(st, f, bdg, init);
      var m := MapsFrom(st, f, bdg, init);
      if m.Ok? {
        MapStepWritten(m.value, f, bdg, mms[|mms| - 1]);
        var r := MapsFrom(st, f, bdg, mms);
        if r.Ok? {
          forall n | n in mms
            ensures FinalName(f, n) in r.value.written
          {
            if n in init {
              PrefixMember(m.value.written, r.value.written, FinalName(f, n));
            }
          }
        }
      }
    }
  }

  lemma PrefixMember<T>(a: seq<T>, b: seq<T>, x: T)
    requires a <= b && x in a
    ensures x in b
  {
    var i :| 0 <= i < |a| && a[i] == x;
    assert b[i] == x;
  }

  lemma {:induction false} FilesFromWritten(st: FormdefState, files: seq<InputFile>)
    requires AllConsistent(files) && Written(st)
    requires forall i :: 0 <= i < |files| ==> MapsNamed(files[i])
    ensures var r := FilesFrom(st, files);
            r.Ok? ==> Written(r.value) &&
                      forall i, n :: 0 <= i < |files| && n in files[i].mmNames ==> FinalName(files[i], n) in r.value.written
    decreases |files|
  {
    if |files| > 0 {
      var init := files[..|files| - 1];
      var f := files[|files| - 1];
      AllConsistentPrefix(files, |files| - 1);
      FilesFromWritten(st, init);
      var m := FilesFrom(st, init);
      if m.Ok? {
        MapsFromWritten(m.value, f, EnvGroup(f.formdef), f.mmNames);
        var r := FilesFrom(st, files);
        if r.Ok? {
          forall i, n | 0 <= i < |files| && n in files[i].mmNames
            ensures FinalName(files[i], n) in r.value.written
          {
            if i < |files| - 1 {
              assert files[i] == init[i];
              PrefixMember(m.value.written, r.value.written, FinalName(files[i], n));
            }
          }
        }
      }
    }
  }

  /**
   * The merged formdef opens with a BFM and closes with an EFM, no medium map
   * name occurs twice in it, and every medium map of every file is present
   * under its final name.
   */
  lemma MergedFormdefProperties(files: seq<InputFile>)
    requires AllConsistent(files)
    requires forall i :: 0 <= i < |files| ==> MapsNamed(files[i])
    ensures var r := MergedFormdef(files);
            r.Ok? ==>
              && r.value[0] == BFM([]) && r.value[|r.value| - 1] == EFM([])
              && Distinct(BmmNames(r.value))
              && (forall i, n :: 0 <= i < |files| && n in files[i].mmNames ==> FinalName(files[i], n) in BmmNames(r.value))
  {
    var st0 := FormdefState([BFM([])], []);
    assert BmmNames([BFM([])]) == [] by { assert [BFM([])][..0] == []; }
    FilesFromWritten(st0, files);
    var r := FilesFrom(st0, files);
    if r.Ok? {
      FilesFromPrefix(st0, files);
      BmmNamesConcat(r.value.out, [EFM([])]);
      assert BmmNames([EFM([])]) == [] by { assert [EFM([])][..0] == []; }
    }
  }

  /** What was output stays a prefix of the output. */
  lemma {:induction false} FilesFromPrefix(st: FormdefState, files: seq<InputFile>)
    requires AllConsistent(files)
    ensures var r := FilesFrom(st, files); r.Ok? ==> st.out <= r.value.out
    decreases |files|
  {
    if |files| > 0 {
      AllConsistentPrefix(files, |files| - 1);
      FilesFromPrefix(st, files[..|files| - 1]);
      var m := FilesFrom(st, files[..|files| - 1]);
      if m.Ok? {
        var f := files[|files| - 1];
        MapsFromPrefix(m.value, f, EnvGroup(f.formdef), f.mmNames);
      }
    }
  }

  lemma {:induction false} MapsFromPrefix(st: FormdefState, f: InputFile, bdg: seq<Field>, mms: seq<string>)
    requires forall n :: n in mms ==> n in f.mediumMaps
    ensures var r := MapsFrom(st, f, bdg, mms); r.Ok? ==> st.out <= r.value.out
    decreases |mms|
  {
    if |mms| > 0 {
      MapsFromPrefix(st, f, bdg, mms[..|mms| - 1]);
    }
  }

  // ---------------------------------------------------------------------------
  // The loops of buildFormdef and add

  /** The environment-group loop of buildFormdef. */
  method EnvironmentGroup(fs: seq<Field>) returns (bdg: seq<Field>)
    ensures bdg == EnvGroup(fs)
  {
    bdg := [];
    var isbdg := false;
    var i := 0;
    while i < |fs|
      invariant 0 <= i <= |fs|
      invariant EnvScan(fs[..i]) == (isbdg, bdg)
    {
      assert fs[..i + 1][..i] == fs[..i];
      var f := fs[i];
      if f.BDG? {
        isbdg := true;
      } else {
        if f.EDG? {
          isbdg := false;
        }
        if isbdg {
          bdg := bdg + [f];
        }
      }
      i := i + 1;
    }
    assert fs[..i] == fs;
  }

  /** One of the two loops of add: the fields of `fs` of category `c`. */
  method Collect(fs: seq<Field>, c: Category) returns (r: seq<Field>)
    ensures r == Select(fs, c)
  {
    r := [];
    var i := 0;
    while i < |fs|
      invariant 0 <= i <= |fs|
      invariant r == Select(fs[..i], c)
    {
      assert fs[..i + 1][..i] == fs[..i];
      var f := fs[i];
      var member := match c
        case AttrOf(k) => f.Attr? && (f.kind == k || (k == PGP && f.kind == PGP1))
        case OverlaysOf => f.MMO?
        case PageOverlaysOf => f.MPO?
        case ResourcesOf => f.MDR?;
      if member {
        r := r + [f];
      }
      i := i + 1;
    }
    assert fs[..i] == fs;
  }

  /** add: the map's own fields of the category, or else the environment group's. */
  method AddFields(bdg: seq<Field>, sfs: seq<Field>, c: Category) returns (r: seq<Field>)
    ensures r == Add(bdg, sfs, c)
  {
    r := Collect(sfs, c);
    if |r| == 0 {
      r := Collect(bdg, c);
    }
  }

  /** The thirteen calls of add for one medium map. */
  method WriteMapBody(bdg: seq<Field>, sfs: seq<Field>) returns (body: seq<Field>)
    ensures body == MapBody(bdg, sfs, Categories)
  {
    body := [];
    var i := 0;
    while i < |Categories|
      invariant 0 <= i <= |Categories|
      invariant body == MapBody(bdg, sfs, Categories[..i])
    {
      assert Categories[..i + 1][..i] == Categories[..i];
      var fields := AddFields(bdg, sfs, Categories[i]);
      body := body + fields;
      i := i + 1;
    }
    assert Categories[..i] == Categories;
  }

  lemma {:induction false} MapsFromPrefixErr(st: FormdefState, f: InputFile, bdg: seq<Field>, mms: seq<string>, n: nat)
    requires (forall m :: m in mms ==> m in f.mediumMaps) && n <= |mms|
    requires MapsFrom(st, f, bdg, mms[..n]).Err?
    ensures MapsFrom(st, f, bdg, mms) == MapsFrom(st, f, bdg, mms[..n])
    decreases |mms| - n
  {
    if n < |mms| {
      assert mms[..n + 1][..n] == mms[..n];
      MapsFromPrefixErr(st, f, bdg, mms, n + 1);
    } else {
      assert mms[..n] == mms;
    }
  }

  lemma {:induction false} FilesFromPrefixErr(st: FormdefState, files: seq<InputFile>, n: nat)
    requires AllConsistent(files) && n <= |files|
    requires AllConsistent(files[..n]) && FilesFrom(st, files[..n]).Err?
    ensures FilesFrom(st, files) == FilesFrom(st, files[..n])
    decreases |files| - n
  {
    if n < |files| {
      assert files[..n + 1][..n] == files[..n];
      AllConsistentPrefix(files, n + 1);
      FilesFromPrefixErr(st, files, n + 1);
    } else {
      assert files[..n] == files;
    }
  }

  /** The loop over one file's medium maps in buildFormdef. */
  method WriteMaps(st0: FormdefState, f: InputFile, bdg: seq<Field>) returns (r: Result<FormdefState, FormdefError>)
    requires forall m :: m in f.mmNames ==> m in f.mediumMaps
    ensures r == MapsFrom(st0, f, bdg, f.mmNames)
  {
    var mms := f.mmNames;
    var st := st0;
    var i := 0;
    while i < |mms|
      invariant 0 <= i <= |mms|
      invariant MapsFrom(st0, f, bdg, mms[..i]) == Ok(st)
    {
      assert mms[..i + 1][..i] == mms[..i];
      var mmName := mms[i];
      assert MapsFrom(st0, f, bdg, mms[..i + 1]) == MapStep(st, f, bdg, mmName);
      var sfs := f.mediumMaps[mmName].sfs;
      if |sfs| == 0 {
        MapsFromPrefixErr(st0, f, bdg, mms, i + 1);
        return Err(EmptyMediumMap(mmName));
      }
      var bmm := sfs[0];
      if !bmm.BMM? {
        MapsFromPrefixErr(st0, f, bdg, mms, i + 1);
        return Err(NotBmm(mmName));
      }
      var skip := false;
      if mmName in f.renameIMM {
        var newName := f.renameIMM[mmName];
        if newName in st.written {
          skip := true;
        } else {
          bmm := bmm.(mmName := newName);
        }
      } else if mmName in st.written {
        skip := true;
      }
      if !skip {
        var body := WriteMapBody(bdg, sfs);
        st := FormdefState(st.out + [bmm] + body + [EMM([])], st.written + [bmm.mmName]);
      }
      i := i + 1;
    }
    assert mms[..i] == mms;
    return Ok(st);
  }
}
