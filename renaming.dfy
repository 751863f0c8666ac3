/**
 * The renaming table (AfpCombine.buildRenamingTable, equals): every later file
 * is compared with every earlier one, and each resource or medium map that
 * both define and that differs gets a fresh name in the later file.
 *
 * The comparison loop is the same for resources and for medium maps, so it is
 * written once over a key type `K`: a `View` is what one file records about
 * its keys, and `Names` is the renaming map of the later file together with
 * the global name registry that fresh names are drawn from.
 */
module Renaming {
  import opened Wrappers
  import opened Afp
  import opened Naming

  /** What the scan recorded about one resource or medium map. */
  datatype Entry = Entry(hash: Option<string>, content: seq<byte>)

  /** One file's list of keys (in scan order, possibly repeating) and their entries. */
  datatype View<K> = View(keys: seq<K>, entries: map<K, Entry>)

  /** The later file's renamings and the registry of names in use. */
  datatype Names<K> = Names(renames: map<K, string>, registry: seq<string>)

  datatype RenameError =
    | MissingHash(name: string)        // a key with no hash: the scan saw no end for it
    | NoFreshName(cause: NameError)

  ghost predicate ValidView<K>(v: View<K>)
  {
    forall k :: k in v.keys ==> k in v.entries
  }

  /**
   * AfpCombine.equals: with equality checking off any two contents count as
   * the same; with it on, Arrays.equals, which holds exactly for contents of
   * the same length with the same byte at every index.
   */
  function SameContent(c1: seq<byte>, c2: seq<byte>, checkEquality: bool): (r: bool)
    ensures !checkEquality ==> r
    ensures checkEquality ==> (r <==> |c1| == |c2| && forall i :: 0 <= i < |c1| ==> c1[i] == c2[i])
  {
    !checkEquality || c1 == c2
  }

  /** Sameness of contents is an equivalence: reflexive, symmetric and transitive, whichever way checking is set. */
  lemma SameContentEquivalence(c1: seq<byte>, c2: seq<byte>, c3: seq<byte>, checkEquality: bool)
    ensures SameContent(c1, c1, checkEquality)
    ensures SameContent(c1, c2, checkEquality) ==> SameContent(c2, c1, checkEquality)
    ensures SameContent(c1, c2, checkEquality) && SameContent(c2, c3, checkEquality) ==> SameContent(c1, c3, checkEquality)
  {
  }

  /** The two entries are identical: the first has a hash and it equals the second's, and the contents agree. */
  predicate Same(e1: Entry, e2: Entry, checkEquality: bool)
    requires e1.hash.Some?
  {
    e2.hash == e1.hash && SameContent(e1.content, e2.content, checkEquality)
  }

  /**
   * One key of the earlier file, compared with the later file. Keys the later
   * file lacks or has already renamed are skipped; an identical entry inherits
   * the earlier file's renaming (if any); a different one gets a fresh name
   * derived from the later file's hash, which joins the registry.
   */
  function ResolveOne<K>(v1: View<K>, ren1: map<K, string>, v2: View<K>, st: Names<K>, k: K,
                         nameOf: K -> string, checkEquality: bool): (r: Result<Names<K>, RenameError>)
    requires k in v1.entries && ValidView(v2)
  {
    if k !in v2.keys || k in st.renames then Ok(st)
    else
      var e1, e2 := v1.entries[k], v2.entries[k];
      if e1.hash.None? then Err(MissingHash(nameOf(k)))  // h1.equals(h2) on a null h1
      else if Same(e1, e2, checkEquality) then
        if k in ren1 then Ok(st.(renames := st.renames[k := ren1[k]])) else Ok(st)
      else if e2.hash.None? then Err(MissingHash(nameOf(k)))  // hash.length() on a null hash
      else
        match FreshName(nameOf(k), e2.hash.value, st.registry)
        case Err(e) => Err(NoFreshName(e))
        case Ok(n) => Ok(Names(st.renames[k := n], st.registry + [n]))
  }

  /** The cases of `ResolveOne`, stated on its result. */
  lemma ResolveOneCases<K>(v1: View<K>, ren1: map<K, string>, v2: View<K>, st: Names<K>, k: K,
                           nameOf: K -> string, checkEquality: bool)
    requires k in v1.entries && ValidView(v2)
    ensures var r := ResolveOne(v1, ren1, v2, st, k, nameOf, checkEquality);
            r.Ok? ==> SubMap(st.renames, r.value.renames)
    ensures var r := ResolveOne(v1, ren1, v2, st, k, nameOf, checkEquality);
            r.Ok? ==> r.value.renames.Keys <= st.renames.Keys + {k}
    ensures var r := ResolveOne(v1, ren1, v2, st, k, nameOf, checkEquality);
            r.Ok? ==> st.registry <= r.value.registry
    ensures var r := ResolveOne(v1, ren1, v2, st, k, nameOf, checkEquality);
            r.Ok? && k in r.value.renames && k !in st.renames ==> k in v2.keys
    ensures var r := ResolveOne(v1, ren1, v2, st, k, nameOf, checkEquality);
            (r.Ok? && k in v2.keys && k !in st.renames && k !in ren1 && v1.entries[k].hash.Some? &&
             Same(v1.entries[k], v2.entries[k], checkEquality)) ==> r.value == st
    ensures var r := ResolveOne(v1, ren1, v2, st, k, nameOf, checkEquality);
            (r.Ok? && k in v2.keys && k !in st.renames && k in ren1 && v1.entries[k].hash.Some? &&
             Same(v1.entries[k], v2.entries[k], checkEquality)) ==> r.value == st.(renames := st.renames[k := ren1[k]])
    ensures var r := ResolveOne(v1, ren1, v2, st, k, nameOf, checkEquality);
            (r.Ok? && k in v2.keys && k !in st.renames &&
             !(v1.entries[k].hash.Some? && Same(v1.entries[k], v2.entries[k], checkEquality))) ==>
              && k in r.value.renames && v2.entries[k].hash.Some?
              && r.value.registry == st.registry + [r.value.renames[k]]
              && FreshName(nameOf(k), v2.entries[k].hash.value, st.registry) == Ok(r.value.renames[k])
    ensures var r := ResolveOne(v1, ren1, v2, st, k, nameOf, checkEquality);
            r.Err? <==> k in v2.keys && k !in st.renames &&
                        (v1.entries[k].hash.None? ||
                         (!Same(v1.entries[k], v2.entries[k], checkEquality) &&
                          (v2.entries[k].hash.None? || FreshName(nameOf(k), v2.entries[k].hash.value, st.registry).Err?)))
  {
  }

  /** The keys `ks` of the earlier file, in order. */
  function ResolveAll<K>(v1: View<K>, ren1: map<K, string>, v2: View<K>, st: Names<K>, ks: seq<K>,
                         nameOf: K -> string, checkEquality: bool): (r: Result<Names<K>, RenameError>)
    requires forall k :: k in ks ==> k in v1.entries
    requires ValidView(v2)
    decreases |ks|
  {
    if |ks| == 0 then Ok(st)
    else
      var st' :- ResolveAll(v1, ren1, v2, st, ks[..|ks| - 1], nameOf, checkEquality);
      ResolveOne(v1, ren1, v2, st', ks[|ks| - 1], nameOf, checkEquality)
  }

  /** Every renaming of a key keeps the key's first two characters, upper-cased, and is a registered name. */
  ghost predicate WellNamed<K>(m: map<K, string>, registry: seq<string>, nameOf: K -> string)
  {
    forall k :: k in m ==>
      |nameOf(k)| >= 2 && |m[k]| >= 2 && m[k][..2] == Upper(nameOf(k)[..2]) && m[k] in registry
  }

  lemma WellNamedGrow<K>(m: map<K, string>, registry: seq<string>, registry': seq<string>, nameOf: K -> string)
    requires WellNamed(m, registry, nameOf) && registry <= registry'
    ensures WellNamed(m, registry', nameOf)
  {
    forall k | k in m
      ensures m[k] in registry'
    {
      var i :| 0 <= i < |registry| && registry[i] == m[k];
      assert registry'[i] == m[k];
    }
  }

  lemma ResolveOneWellNamed<K>(v1: View<K>, ren1: map<K, string>, v2: View<K>, st: Names<K>, k: K,
                               nameOf: K -> string, checkEquality: bool)
    requires k in v1.entries && ValidView(v2)
    requires WellNamed(ren1, st.registry, nameOf) && WellNamed(st.renames, st.registry, nameOf)
    ensures var r := ResolveOne(v1, ren1, v2, st, k, nameOf, checkEquality);
            r.Ok? ==> WellNamed(r.value.renames, r.value.registry, nameOf)
  {
    var r := ResolveOne(v1, ren1, v2, st, k, nameOf, checkEquality);
    ResolveOneCases(v1, ren1, v2, st, k, nameOf, checkEquality);
    if r.Ok? && r.value.registry != st.registry {
      var n := r.value.renames[k];
      FreshNamePrefix(nameOf(k), v2.entries[k].hash.value, st.registry);
      WellNamedGrow(st.renames, st.registry, r.value.registry, nameOf);
      assert r.value.renames == st.renames[k := n];
    }
  }

  /**
   * What comparing the keys `ks` does to the later file's table: entries are
   * only added, never replaced; only keys of `ks` that the later file has are
   * added; the registry only grows; and names stay well-formed and registered.
   */
  lemma {:induction false} ResolveAllProperties<K>(v1: View<K>, ren1: map<K, string>, v2: View<K>, st: Names<K>, ks: seq<K>,
                                                   nameOf: K -> string, checkEquality: bool)
    requires forall k :: k in ks ==> k in v1.entries
    requires ValidView(v2)
    ensures var r := ResolveAll(v1, ren1, v2, st, ks, nameOf, checkEquality);
            r.Ok? ==>
              && SubMap(st.renames, r.value.renames)
              && st.registry <= r.value.registry
              && (forall k :: k in r.value.renames && k !in st.renames ==> k in ks && k in v2.keys)
    ensures var r := ResolveAll(v1, ren1, v2, st, ks, nameOf, checkEquality);
            r.Ok? && WellNamed(ren1, st.registry, nameOf) && WellNamed(st.renames, st.registry, nameOf) ==>
              WellNamed(r.value.renames, r.value.registry, nameOf)
    decreases |ks|
  {
    if |ks| > 0 {
      var ks' := ks[..|ks| - 1];
      var k := ks[|ks| - 1];
      ResolveAllProperties(v1, ren1, v2, st, ks', nameOf, checkEquality);
      var m := ResolveAll(v1, ren1, v2, st, ks', nameOf, checkEquality);
      if m.Ok? {
        var r := ResolveOne(v1, ren1, v2, m.value, k, nameOf, checkEquality);
        ResolveOneCases(v1, ren1, v2, m.value, k, nameOf, checkEquality);
        if r.Ok? {
          forall j | j in r.value.renames && j !in st.renames
            ensures j in ks && j in v2.keys
          {
            if j !in m.value.renames {
              assert j == k;
            } else {
              assert j in ks';
            }
          }
          if WellNamed(ren1, st.registry, nameOf) && WellNamed(st.renames, st.registry, nameOf) {
            WellNamedGrow(ren1, st.registry, m.value.registry, nameOf);
            ResolveOneWellNamed(v1, ren1, v2, m.value, k, nameOf, checkEquality);
          }
        }
      }
    }
  }

  /** An entry the later file shares unchanged with the earlier one, which has not renamed it, keeps its name. */
  ghost predicate KeepsName<K>(v1: View<K>, ren1: map<K, string>, v2: View<K>, k: K, checkEquality: bool)
  {
    k in v1.entries && k in v2.entries && k !in ren1 &&
    v1.entries[k].hash.Some? && Same(v1.entries[k], v2.entries[k], checkEquality)
  }

  /**
   * A key is renamed by the comparison if and only if the later file has it, it
   * was not renamed before, it is among `ks`, and it is not kept: it differs,
   * or the earlier file has renamed it.
   */
  lemma {:induction false} ResolveAllRenames<K>(v1: View<K>, ren1: map<K, string>, v2: View<K>, st: Names<K>, ks: seq<K>, k: K,
                                                nameOf: K -> string, checkEquality: bool)
    requires forall j :: j in ks ==> j in v1.entries
    requires ValidView(v2)
    requires k !in st.renames
    ensures var r := ResolveAll(v1, ren1, v2, st, ks, nameOf, checkEquality);
            r.Ok? ==> (k in r.value.renames <==> k in ks && k in v2.keys && !KeepsName(v1, ren1, v2, k, checkEquality))
    decreases |ks|
  {
    if |ks| > 0 {
      var ks' := ks[..|ks| - 1];
      ResolveAllRenames(v1, ren1, v2, st, ks', k, nameOf, checkEquality);
      var m := ResolveAll(v1, ren1, v2, st, ks', nameOf, checkEquality);
      if m.Ok? {
        ResolveOneCases(v1, ren1, v2, m.value, ks[|ks| - 1], nameOf, checkEquality);
        assert k in ks <==> k in ks' || k == ks[|ks| - 1] by {
          assert ks == ks' + [ks[|ks| - 1]];
        }
      }
    }
  }

  // ---------------------------------------------------------------------------
  // The files of a run, compared pair by pair.

  function ResourceName(k: ResourceKey): string { k.name }

  function MediumMapName(n: string): string { n }

  function ResourceView(f: InputFile): View<ResourceKey>
  {
    View(f.resources, map k | k in f.filePos :: Entry(f.filePos[k].hash, f.filePos[k].content))
  }

  function MediumMapView(f: InputFile): View<string>
  {
    View(f.mmNames, map n | n in f.mediumMaps :: Entry(f.mediumMaps[n].hash, f.mediumMaps[n].content))
  }

  /** The files of the run and the two global registries. */
  datatype Tables = Tables(files: seq<InputFile>, resourceNames: seq<string>, mmNames: seq<string>)

  /**
   * File `i` of `u` is file `i` of `t` with renamings added: nothing the scan
   * recorded changes, no renaming is replaced, and a renaming is only added
   * for a key the file has and that an earlier file has too.
   */
  ghost predicate FileExtends(t: Tables, u: Tables, i: nat)
    requires i < |t.files| && i < |u.files|
  {
    && u.files[i] == t.files[i].(renamings := u.files[i].renamings, renameIMM := u.files[i].renameIMM)
    && SubMap(t.files[i].renamings, u.files[i].renamings)
    && SubMap(t.files[i].renameIMM, u.files[i].renameIMM)
    && (forall k :: k in u.files[i].renamings && k !in t.files[i].renamings ==>
          k in t.files[i].resources && exists i' :: 0 <= i' < i && k in t.files[i'].resources)
    && (forall n :: n in u.files[i].renameIMM && n !in t.files[i].renameIMM ==>
          n in t.files[i].mmNames && exists i' :: 0 <= i' < i && n in t.files[i'].mmNames)
  }

  /** `u` is `t` with renamings added to its files and its registries extended. */
  ghost predicate Extends(t: Tables, u: Tables)
  {
    && |u.files| == |t.files|
    && t.resourceNames <= u.resourceNames
    && t.mmNames <= u.mmNames
    && (forall i: nat :: i < |t.files| ==> FileExtends(t, u, i))
  }

  lemma ExtendsTrans(t: Tables, u: Tables, v: Tables)
    requires Extends(t, u) == true && Extends(u, v) == true
    ensures Extends(t, v) == true
  {
    forall i: nat | i < |t.files|
      ensures FileExtends(t, v, i)
    {
      assert FileExtends(t, u, i) && FileExtends(u, v, i);
      forall k | k in v.files[i].renamings && k !in t.files[i].renamings
        ensures k in t.files[i].resources && exists i' :: 0 <= i' < i && k in t.files[i'].resources
      {
        if k !in u.files[i].renamings {
          var i' :| 0 <= i' < i && k in u.files[i'].resources;
          assert FileExtends(t, u, i');
        }
      }
      forall n | n in v.files[i].renameIMM && n !in t.files[i].renameIMM
        ensures n in t.files[i].mmNames && exists i' :: 0 <= i' < i && n in t.files[i'].mmNames
      {
        if n !in u.files[i].renameIMM {
          var i' :| 0 <= i' < i && n in u.files[i'].mmNames;
          assert FileExtends(t, u, i');
        }
      }
    }
  }

  /** Every renaming in every file is well-formed and registered. */
  ghost predicate Registered(t: Tables)
  {
    forall i: nat :: i < |t.files| ==> RegisteredAt(t, i)
  }

  /** The renamings of file `i` are well-formed and registered. */
  ghost predicate RegisteredAt(t: Tables, i: nat)
    requires i < |t.files|
  {
    WellNamed(t.files[i].renamings, t.resourceNames, ResourceName) &&
    WellNamed(t.files[i].renameIMM, t.mmNames, MediumMapName)
  }

  ghost predicate TablesInv(t: Tables)
  {
    AllConsistent(t.files) && Registered(t)
  }

  /** The comparison of file `i` (earlier) with file `j` (later): resources first, then medium maps. */
  function ComparePair(t: Tables, i: nat, j: nat, checkEquality: bool): (r: Result<Tables, RenameError>)
    requires i < j < |t.files| && AllConsistent(t.files)
    ensures r.Ok? ==> |r.value.files| == |t.files| && AllConsistent(r.value.files)
  {
    var rs :- CompareResources(t, i, j, checkEquality);
    var ms :- CompareMediumMaps(t, i, j, checkEquality);
    assert ConsistentAt(t.files, j);
    AllConsistentUpdate(t.files, j, t.files[j].(renamings := rs.renames, renameIMM := ms.renames));
    Ok(Tables(t.files[j := t.files[j].(renamings := rs.renames, renameIMM := ms.renames)], rs.registry, ms.registry))
  }

  /** Giving the later file of a pair more renamings, for keys both files have, extends the tables. */
  lemma UpdateExtends(t: Tables, i: nat, j: nat, ren: map<ResourceKey, string>, imm: map<string, string>,
                      rreg: seq<string>, mreg: seq<string>)
    requires i < j < |t.files|
    requires t.resourceNames <= rreg && t.mmNames <= mreg
    requires SubMap(t.files[j].renamings, ren) && SubMap(t.files[j].renameIMM, imm)
    requires forall k :: k in ren && k !in t.files[j].renamings ==> k in t.files[i].resources && k in t.files[j].resources
    requires forall n :: n in imm && n !in t.files[j].renameIMM ==> n in t.files[i].mmNames && n in t.files[j].mmNames
    ensures Extends(t, Tables(t.files[j := t.files[j].(renamings := ren, renameIMM := imm)], rreg, mreg))
  {
    var u := Tables(t.files[j := t.files[j].(renamings := ren, renameIMM := imm)], rreg, mreg);
    forall i': nat | i' < |t.files|
      ensures FileExtends(t, u, i')
    {
      if i' == j {
        forall k | k in u.files[i'].renamings && k !in t.files[i'].renamings
          ensures k in t.files[i'].resources && exists i'' :: 0 <= i'' < i' && k in t.files[i''].resources
        {
          assert k in t.files[i].resources;
        }
        forall n | n in u.files[i'].renameIMM && n !in t.files[i'].renameIMM
          ensures n in t.files[i'].mmNames && exists i'' :: 0 <= i'' < i' && n in t.files[i''].mmNames
        {
          assert n in t.files[i].mmNames;
        }
      }
    }
  }

  /** Registering more names keeps every file's renamings well-formed, and the later file's new table is too. */
  lemma UpdateInv(t: Tables, j: nat, ren: map<ResourceKey, string>, imm: map<string, string>,
                  rreg: seq<string>, mreg: seq<string>)
    requires j < |t.files| && TablesInv(t)
    requires t.resourceNames <= rreg && t.mmNames <= mreg
    requires WellNamed(ren, rreg, ResourceName) && WellNamed(imm, mreg, MediumMapName)
    ensures TablesInv(Tables(t.files[j := t.files[j].(renamings := ren, renameIMM := imm)], rreg, mreg))
  {
    var u := Tables(t.files[j := t.files[j].(renamings := ren, renameIMM := imm)], rreg, mreg);
    assert ConsistentAt(t.files, j);
    AllConsistentUpdate(t.files, j, u.files[j]);
    forall i': nat | i' < |u.files|
      ensures RegisteredAt(u, i')
    {
      if i' != j {
        assert RegisteredAt(t, i');
        WellNamedGrow(t.files[i'].renamings, t.resourceNames, rreg, ResourceName);
        WellNamedGrow(t.files[i'].renameIMM, t.mmNames, mreg, MediumMapName);
      }
    }
  }

  /** The scan's records are untouched by renaming, so consistency carries over. */
  lemma ExtendsConsistent(t: Tables, u: Tables)
    requires Extends(t, u) && AllConsistent(t.files)
    ensures AllConsistent(u.files)
  {
    forall i: nat | i < |u.files|
      ensures ConsistentAt(u.files, i)
    {
      assert FileExtends(t, u, i) && ConsistentAt(t.files, i);
    }
  }

  /** The resource comparison of a pair of files: what `ResolveAll` does to the later file's renamings. */
  function CompareResources(t: Tables, i: nat, j: nat, checkEquality: bool): (r: Result<Names<ResourceKey>, RenameError>)
    requires i < j < |t.files| && AllConsistent(t.files)
  {
    var f1, f2 := t.files[i], t.files[j];
    assert ConsistentAt(t.files, i) && ConsistentAt(t.files, j);
    ResolveAll(ResourceView(f1), f1.renamings, ResourceView(f2), Names(f2.renamings, t.resourceNames),
               f1.resources, ResourceName, checkEquality)
  }

  /** The medium-map comparison of a pair of files: what `ResolveAll` does to the later file's medium-map renamings. */
  function CompareMediumMaps(t: Tables, i: nat, j: nat, checkEquality: bool): (r: Result<Names<string>, RenameError>)
    requires i < j < |t.files| && AllConsistent(t.files)
  {
    var f1, f2 := t.files[i], t.files[j];
    assert ConsistentAt(t.files, i) && ConsistentAt(t.files, j);
    ResolveAll(MediumMapView(f1), f1.renameIMM, MediumMapView(f2), Names(f2.renameIMM, t.mmNames),
               f1.mmNames, MediumMapName, checkEquality)
  }

  lemma ComparePairExtends(t: Tables, i: nat, j: nat, checkEquality: bool)
    requires i < j < |t.files| && AllConsistent(t.files)
    ensures var r := ComparePair(t, i, j, checkEquality);
            r.Ok? ==> Extends(t, r.value) == true
  {
    var f1, f2 := t.files[i], t.files[j];
    assert ConsistentAt(t.files, i) && ConsistentAt(t.files, j);
    ResolveAllProperties(ResourceView(f1), f1.renamings, ResourceView(f2), Names(f2.renamings, t.resourceNames),
                         f1.resources, ResourceName, checkEquality);
    ResolveAllProperties(MediumMapView(f1), f1.renameIMM, MediumMapView(f2), Names(f2.renameIMM, t.mmNames),
                         f1.mmNames, MediumMapName, checkEquality);
    var rr, mr := CompareResources(t, i, j, checkEquality), CompareMediumMaps(t, i, j, checkEquality);
    if rr.Ok? && mr.Ok? {
      var rs, ms := rr.value, mr.value;
      var u := Tables(t.files[j := f2.(renamings := rs.renames, renameIMM := ms.renames)], rs.registry, ms.registry);
      assert ComparePair(t, i, j, checkEquality) == Ok(u);
      UpdateExtends(t, i, j, rs.renames, ms.renames, rs.registry, ms.registry);
    }
  }

  /** Only the later file of a pair changes. */
  lemma ComparePairOthers(t: Tables, i: nat, j: nat, checkEquality: bool)
    requires i < j < |t.files| && AllConsistent(t.files)
    ensures var r := ComparePair(t, i, j, checkEquality);
            r.Ok? ==> forall i' :: 0 <= i' < |t.files| && i' != j ==> r.value.files[i'] == t.files[i']
  {
  }

  lemma ComparePairInv(t: Tables, i: nat, j: nat, checkEquality: bool)
    requires i < j < |t.files| && AllConsistent(t.files) && Registered(t) == true
    ensures var r := ComparePair(t, i, j, checkEquality);
            r.Ok? ==> Registered(r.value) == true
  {
    var f1, f2 := t.files[i], t.files[j];
    assert ConsistentAt(t.files, i) && ConsistentAt(t.files, j);
    assert RegisteredAt(t, i) && RegisteredAt(t, j);
    ResolveAllProperties(ResourceView(f1), f1.renamings, ResourceView(f2), Names(f2.renamings, t.resourceNames),
                         f1.resources, ResourceName, checkEquality);
    ResolveAllProperties(MediumMapView(f1), f1.renameIMM, MediumMapView(f2), Names(f2.renameIMM, t.mmNames),
                         f1.mmNames, MediumMapName, checkEquality);
    var rr, mr := CompareResources(t, i, j, checkEquality), CompareMediumMaps(t, i, j, checkEquality);
    if rr.Ok? && mr.Ok? {
      var rs, ms := rr.value, mr.value;
      assert ComparePair(t, i, j, checkEquality) ==
             Ok(Tables(t.files[j := f2.(renamings := rs.renames, renameIMM := ms.renames)], rs.registry, ms.registry));
      UpdateInv(t, j, rs.renames, ms.renames, rs.registry, ms.registry);
      assert TablesInv(Tables(t.files[j := f2.(renamings := rs.renames, renameIMM := ms.renames)], rs.registry, ms.registry));
    }
  }

  /** The first file is never the later one of a pair. */
  lemma FirstFileUnchanged(t: Tables, u: Tables)
    requires Extends(t, u) && |t.files| > 0
    ensures u.files[0] == t.files[0]
  {
    assert FileExtends(t, u, 0);
    assert u.files[0].renamings == t.files[0].renamings;
    assert u.files[0].renameIMM == t.files[0].renameIMM;
  }

  /** The pairs (i, i + 1), ..., (i, m - 1), in that order. */
  function CompareRow(t: Tables, i: nat, m: nat, checkEquality: bool): (r: Result<Tables, RenameError>)
    requires i < |t.files| && m <= |t.files| && AllConsistent(t.files)
    ensures r.Ok? ==> |r.value.files| == |t.files| && AllConsistent(r.value.files)
    decreases m, 1
  {
    if m <= i + 1 then Ok(t) else CompareRowLast(t, i, m, checkEquality)
  }

  /** A row through `m` that compares at least one file: the row through `m - 1`, then the pair (i, m - 1). */
  function CompareRowLast(t: Tables, i: nat, m: nat, checkEquality: bool): (r: Result<Tables, RenameError>)
    requires i + 1 < m <= |t.files| && AllConsistent(t.files)
    ensures r.Ok? ==> |r.value.files| == |t.files| && AllConsistent(r.value.files)
    decreases m, 0
  {
    var u :- CompareRow(t, i, m - 1, checkEquality);
    ComparePair(u, i, m - 1, checkEquality)
  }

  /** The rows of the first `n` files, each against every later file: the whole of buildRenamingTable when n is the file count. */
  function BuildTable(t: Tables, n: nat, checkEquality: bool): (r: Result<Tables, RenameError>)
    requires n <= |t.files| && AllConsistent(t.files)
    ensures r.Ok? ==> |r.value.files| == |t.files| && AllConsistent(r.value.files)
    decreases n
  {
    if n == 0 then Ok(t)
    else
      var u :- BuildTable(t, n - 1, checkEquality);
      CompareRow(u, n - 1, |u.files|, checkEquality)
  }

  /** One step of the row, stated case by case. */
  lemma CompareRowUnfold(t: Tables, i: nat, m: nat, checkEquality: bool)
    requires i + 1 < m <= |t.files| && AllConsistent(t.files)
    ensures var u := CompareRow(t, i, m - 1, checkEquality);
            && (u.Ok? ==> CompareRow(t, i, m, checkEquality) == ComparePair(u.value, i, m - 1, checkEquality))
            && (u.Err? ==> CompareRow(t, i, m, checkEquality).Err?)
  {
  }

  /** One step of the table, stated case by case. */
  lemma BuildTableUnfold(t: Tables, n: nat, checkEquality: bool)
    requires 0 < n <= |t.files| && AllConsistent(t.files)
    ensures var u := BuildTable(t, n - 1, checkEquality);
            && (u.Ok? ==> BuildTable(t, n, checkEquality) == CompareRow(u.value, n - 1, |u.value.files|, checkEquality))
            && (u.Err? ==> BuildTable(t, n, checkEquality).Err?)
  {
  }

  lemma ExtendsRefl(t: Tables)
    ensures Extends(t, t) == true
  {
  }

  /** Transitivity, for a step that may fail. */
  lemma ExtendsThen(t: Tables, u: Tables, r: Result<Tables, RenameError>)
    requires Extends(t, u) == true && (r.Ok? ==> Extends(u, r.value) == true)
    ensures r.Ok? ==> Extends(t, r.value) == true
  {
    if r.Ok? {
      ExtendsTrans(t, u, r.value);
    }
  }

  lemma {:induction false} CompareRowExtends(t: Tables, i: nat, m: nat, checkEquality: bool)
    requires i < |t.files| && m <= |t.files| && AllConsistent(t.files)
    ensures var r := CompareRow(t, i, m, checkEquality);
            r.Ok? ==> Extends(t, r.value) == true
    decreases m
  {
    if m > i + 1 {
      CompareRowExtends(t, i, m - 1, checkEquality);
      var u := CompareRow(t, i, m - 1, checkEquality);
      if u.Ok? {
        ComparePairExtends(u.value, i, m - 1, checkEquality);
        ExtendsThen(t, u.value, ComparePair(u.value, i, m - 1, checkEquality));
      }
      CompareRowUnfold(t, i, m, checkEquality);
    } else {
      ExtendsRefl(t);
    }
  }

  lemma {:induction false} CompareRowInv(t: Tables, i: nat, m: nat, checkEquality: bool)
    requires i < |t.files| && m <= |t.files| && AllConsistent(t.files) && Registered(t) == true
    ensures var r := CompareRow(t, i, m, checkEquality);
            r.Ok? ==> Registered(r.value) == true
    decreases m
  {
    if m > i + 1 {
      CompareRowInv(t, i, m - 1, checkEquality);
      var u := CompareRow(t, i, m - 1, checkEquality);
      if u.Ok? {
        ComparePairInv(u.value, i, m - 1, checkEquality);
      }
      CompareRowUnfold(t, i, m, checkEquality);
    } else {
      assert CompareRow(t, i, m, checkEquality) == Ok(t);
    }
  }

  lemma {:induction false} BuildTableExtends(t: Tables, n: nat, checkEquality: bool)
    requires n <= |t.files| && AllConsistent(t.files)
    ensures var r := BuildTable(t, n, checkEquality);
            r.Ok? ==> Extends(t, r.value) == true
    decreases n
  {
    if n > 0 {
      BuildTableExtends(t, n - 1, checkEquality);
      BuildTableExtendsStep(t, n, checkEquality);
    } else {
      ExtendsRefl(t);
    }
  }

  lemma BuildTableExtendsStep(t: Tables, n: nat, checkEquality: bool)
    requires 0 < n <= |t.files| && AllConsistent(t.files)
    requires var u := BuildTable(t, n - 1, checkEquality);
             u.Ok? ==> Extends(t, u.value) == true
    ensures var r := BuildTable(t, n, checkEquality);
            r.Ok? ==> Extends(t, r.value) == true
  {
    var u := BuildTable(t, n - 1, checkEquality);
    if u.Ok? {
      CompareRowExtends(u.value, n - 1, |u.value.files|, checkEquality);
      ExtendsThen(t, u.value, CompareRow(u.value, n - 1, |u.value.files|, checkEquality));
    }
    BuildTableUnfold(t, n, checkEquality);
  }

  lemma {:induction false} BuildTableInv(t: Tables, n: nat, checkEquality: bool)
    requires n <= |t.files| && AllConsistent(t.files) && Registered(t) == true
    ensures var r := BuildTable(t, n, checkEquality);
            r.Ok? ==> Registered(r.value) == true
    decreases n
  {
    if n > 0 {
      BuildTableInv(t, n - 1, checkEquality);
      BuildTableUnfold(t, n, checkEquality);
      var u := BuildTable(t, n - 1, checkEquality);
      if u.Ok? {
        var v := u.value;
        assert Registered(v) && AllConsistent(v.files);
        CompareRowInv(v, n - 1, |v.files|, checkEquality);
        assert BuildTable(t, n, checkEquality) == CompareRow(v, n - 1, |v.files|, checkEquality);
      }
    } else {
      assert BuildTable(t, n, checkEquality) == Ok(t);
    }
  }

  /** No file has renamed anything yet: the state right after the scan. */
  ghost predicate NoRenamings(t: Tables)
  {
    forall i :: 0 <= i < |t.files| ==> t.files[i].renamings == map[] && t.files[i].renameIMM == map[]
  }

  /**
   * The renaming table, built from the scanned files: the scan's records are
   * kept, no renaming is ever replaced, the first file keeps its names, a file
   * renames only what an earlier file also defines, and every new name keeps
   * the old name's first two characters, upper-cased, and is registered.
   */
  lemma RenamingTableProperties(t: Tables, checkEquality: bool)
    requires AllConsistent(t.files) && NoRenamings(t)
    ensures var r := BuildTable(t, |t.files|, checkEquality);
            r.Ok? ==>
              && Extends(t, r.value)
              && TablesInv(r.value)
              && (|t.files| > 0 ==> r.value.files[0] == t.files[0])
  {
    assert Registered(t);
    BuildTableExtends(t, |t.files|, checkEquality);
    BuildTableInv(t, |t.files|, checkEquality);
    var r := BuildTable(t, |t.files|, checkEquality);
    if r.Ok? && |t.files| > 0 {
      FirstFileUnchanged(t, r.value);
    }
  }

  // ---------------------------------------------------------------------------
  // When a resource is renamed.

  /**
   * In the comparison of files i and j, a resource the later file has not yet
   * renamed is renamed if and only if both files define it and it is not kept
   * (it differs, or the earlier file has already renamed it).
   */
  lemma ComparePairRenames(t: Tables, i: nat, j: nat, k: ResourceKey, checkEquality: bool)
    requires i < j < |t.files| && AllConsistent(t.files)
    requires k !in t.files[j].renamings
    ensures var r := ComparePair(t, i, j, checkEquality);
            r.Ok? ==>
              (k in r.value.files[j].renamings <==>
                 k in t.files[i].resources && k in t.files[j].resources &&
                 !KeepsName(ResourceView(t.files[i]), t.files[i].renamings, ResourceView(t.files[j]), k, checkEquality))
  {
    var f1, f2 := t.files[i], t.files[j];
    assert ConsistentAt(t.files, i) && ConsistentAt(t.files, j);
    ResolveAllRenames(ResourceView(f1), f1.renamings, ResourceView(f2), Names(f2.renamings, t.resourceNames),
                      f1.resources, k, ResourceName, checkEquality);
  }

  /** Files i and j, if both define `k`, recorded the same hash and content for it. */
  ghost predicate AgreeOn(t: Tables, i: nat, j: nat, k: ResourceKey, checkEquality: bool)
    requires i < |t.files| && j < |t.files|
  {
    k in t.files[i].filePos && k in t.files[j].filePos ==>
      t.files[i].filePos[k].hash.Some? &&
      Same(Entry(t.files[i].filePos[k].hash, t.files[i].filePos[k].content),
           Entry(t.files[j].filePos[k].hash, t.files[j].filePos[k].content), checkEquality)
  }

  /** Every file that defines `k` recorded the same hash and content for it. */
  ghost predicate Uniform(t: Tables, k: ResourceKey, checkEquality: bool)
  {
    forall i: nat, j: nat :: i < |t.files| && j < |t.files| ==> AgreeOn(t, i, j, k, checkEquality)
  }

  ghost predicate NotRenamedAt(t: Tables, i: nat, k: ResourceKey)
    requires i < |t.files|
  {
    k !in t.files[i].renamings
  }

  /** No file has renamed `k`. */
  ghost predicate NotRenamed(t: Tables, k: ResourceKey)
  {
    forall i: nat :: i < |t.files| ==> NotRenamedAt(t, i, k)
  }

  lemma UniformKept(t: Tables, u: Tables, k: ResourceKey, checkEquality: bool)
    requires Extends(t, u) && Uniform(t, k, checkEquality)
    ensures Uniform(u, k, checkEquality)
  {
    forall i: nat, j: nat | i < |u.files| && j < |u.files|
      ensures AgreeOn(u, i, j, k, checkEquality)
    {
      assert FileExtends(t, u, i) && FileExtends(t, u, j);
      assert AgreeOn(t, i, j, k, checkEquality);
    }
  }

  /** Key `k` is defined identically by every file and renamed by none. */
  ghost predicate Kept(t: Tables, k: ResourceKey, checkEquality: bool)
  {
    Uniform(t, k, checkEquality) && NotRenamed(t, k)
  }

  lemma PairKeepsUniform(t: Tables, i: nat, j: nat, k: ResourceKey, checkEquality: bool)
    requires i < j < |t.files| && AllConsistent(t.files)
    requires Kept(t, k, checkEquality) == true
    ensures var r := ComparePair(t, i, j, checkEquality);
            r.Ok? ==> Kept(r.value, k, checkEquality) == true
  {
    assert NotRenamedAt(t, i, k) && NotRenamedAt(t, j, k);
    assert ConsistentAt(t.files, i) && ConsistentAt(t.files, j);
    ComparePairExtends(t, i, j, checkEquality);
    ComparePairOthers(t, i, j, checkEquality);
    ComparePairRenames(t, i, j, k, checkEquality);
    var r := ComparePair(t, i, j, checkEquality);
    if r.Ok? {
      UniformKept(t, r.value, k, checkEquality);
      if k in t.files[i].resources && k in t.files[j].resources {
        assert AgreeOn(t, i, j, k, checkEquality);
        assert KeepsName(ResourceView(t.files[i]), t.files[i].renamings, ResourceView(t.files[j]), k, checkEquality);
      }
      forall i': nat | i' < |r.value.files|
        ensures NotRenamedAt(r.value, i', k)
      {
        if i' != j {
          assert NotRenamedAt(t, i', k);
        }
      }
    }
  }

  lemma {:induction false} RowKeepsUniform(t: Tables, i: nat, m: nat, k: ResourceKey, checkEquality: bool)
    requires i < |t.files| && m <= |t.files| && AllConsistent(t.files)
    requires Kept(t, k, checkEquality) == true
    ensures var r := CompareRow(t, i, m, checkEquality);
            r.Ok? ==> Kept(r.value, k, checkEquality) == true
    decreases m
  {
    if m > i + 1 {
      RowKeepsUniform(t, i, m - 1, k, checkEquality);
      var u := CompareRow(t, i, m - 1, checkEquality);
      if u.Ok? {
        PairKeepsUniform(u.value, i, m - 1, k, checkEquality);
      }
      CompareRowUnfold(t, i, m, checkEquality);
    } else {
      assert CompareRow(t, i, m, checkEquality) == Ok(t);
    }
  }

  lemma {:induction false} TableKeepsUniform(t: Tables, n: nat, k: ResourceKey, checkEquality: bool)
    requires n <= |t.files| && AllConsistent(t.files)
    requires Kept(t, k, checkEquality) == true
    ensures var r := BuildTable(t, n, checkEquality);
            r.Ok? ==> Kept(r.value, k, checkEquality) == true
    decreases n
  {
    if n > 0 {
      TableKeepsUniform(t, n - 1, k, checkEquality);
      var u := BuildTable(t, n - 1, checkEquality);
      if u.Ok? {
        RowKeepsUniform(u.value, n - 1, |u.value.files|, k, checkEquality);
      }
      BuildTableUnfold(t, n, checkEquality);
    }
  }

  /** A resource that every file defining it defines identically is renamed in none of them. */
  lemma IdenticalNeverRenamed(t: Tables, k: ResourceKey, checkEquality: bool)
    requires AllConsistent(t.files) && NoRenamings(t)
    requires Uniform(t, k, checkEquality)
    ensures var r := BuildTable(t, |t.files|, checkEquality);
            r.Ok? ==> forall i :: 0 <= i < |r.value.files| ==> k !in r.value.files[i].renamings
  {
    assert Kept(t, k, checkEquality);
    TableKeepsUniform(t, |t.files|, k, checkEquality);
    var r := BuildTable(t, |t.files|, checkEquality);
    if r.Ok? {
      assert Kept(r.value, k, checkEquality);
      forall i | 0 <= i < |r.value.files|
        ensures k !in r.value.files[i].renamings
      {
        assert NotRenamedAt(r.value, i, k);
      }
    }
  }

  // ---------------------------------------------------------------------------
  // The loop over an earlier file's keys

  /** Once a prefix of the keys fails, the whole loop fails with that error. */
  lemma {:induction false} ResolveAllPrefixErr<K>(v1: View<K>, ren1: map<K, string>, v2: View<K>, st: Names<K>, ks: seq<K>,
                                                  nameOf: K -> string, checkEquality: bool, n: nat)
    requires forall k :: k in ks ==> k in v1.entries
    requires ValidView(v2) && n <= |ks|
    requires ResolveAll(v1, ren1, v2, st, ks[..n], nameOf, checkEquality).Err?
    ensures ResolveAll(v1, ren1, v2, st, ks, nameOf, checkEquality) == ResolveAll(v1, ren1, v2, st, ks[..n], nameOf, checkEquality)
    decreases |ks| - n
  {
    if n < |ks| {
      assert ks[..n + 1][..n] == ks[..n];
      ResolveAllPrefixErr(v1, ren1, v2, st, ks, nameOf, checkEquality, n + 1);
    } else {
      assert ks[..n] == ks;
    }
  }

  /** One of the two inner loops of buildRenamingTable: the keys `ks` of the earlier file, compared with the later file. */
  method ResolveKeys<K>(v1: View<K>, ren1: map<K, string>, v2: View<K>, st0: Names<K>, ks: seq<K>,
                        nameOf: K -> string, checkEquality: bool) returns (r: Result<Names<K>, RenameError>)
    requires forall k :: k in ks ==> k in v1.entries
    requires ValidView(v2)
    ensures r == ResolveAll(v1, ren1, v2, st0, ks, nameOf, checkEquality)
  {
    var st := st0;
    var i := 0;
    while i < |ks|
      invariant 0 <= i <= |ks|
      invariant ResolveAll(v1, ren1, v2, st0, ks[..i], nameOf, checkEquality) == Ok(st)
    {
      assert ks[..i + 1][..i] == ks[..i];
      var k := ks[i];
      assert ResolveAll(v1, ren1, v2, st0, ks[..i + 1], nameOf, checkEquality) == ResolveOne(v1, ren1, v2, st, k, nameOf, checkEquality);
      if k in v2.keys && k !in st.renames {
        var e1, e2 := v1.entries[k], v2.entries[k];
        if e1.hash.None? {
          ResolveAllPrefixErr(v1, ren1, v2, st0, ks, nameOf, checkEquality, i + 1);
          return Err(MissingHash(nameOf(k)));
        }
        if e2.hash == e1.hash && SameContent(e1.content, e2.content, checkEquality) {
          if k in ren1 {
            st := st.(renames := st.renames[k := ren1[k]]);
          }
        } else {
          if e2.hash.None? {
            ResolveAllPrefixErr(v1, ren1, v2, st0, ks, nameOf, checkEquality, i + 1);
            return Err(MissingHash(nameOf(k)));
          }
          var n := GetNewName(nameOf(k), e2.hash.value, st.registry);
          if n.Err? {
            ResolveAllPrefixErr(v1, ren1, v2, st0, ks, nameOf, checkEquality, i + 1);
            return Err(NoFreshName(n.error));
          }
          st := Names(st.renames[k := n.value], st.registry + [n.value]);
        }
      }
      i := i + 1;
    }
    assert ks[..i] == ks;
    return Ok(st);
  }

  // ---------------------------------------------------------------------------
  // An exception ends buildRenamingTable

  lemma {:induction false} CompareRowErr(t: Tables, i: nat, m: nat, m': nat, checkEquality: bool)
    requires i < |t.files| && m <= m' <= |t.files| && AllConsistent(t.files)
    requires CompareRow(t, i, m, checkEquality).Err?
    ensures CompareRow(t, i, m', checkEquality) == CompareRow(t, i, m, checkEquality)
    decreases m' - m
  {
    if m < m' {
      CompareRowErr(t, i, m, m' - 1, checkEquality);
      CompareRowPropagates(t, i, m', checkEquality);
    }
  }

  /** One more pair after a successful row: the row through `j + 1` is that pair applied to the row through `j`. */
  lemma CompareRowNext(t: Tables, i: nat, j: nat, checkEquality: bool, t0: Tables)
    requires i < j < |t.files| && AllConsistent(t.files)
    requires CompareRow(t, i, j, checkEquality) == Ok(t0)
    ensures i < j < |t0.files| && AllConsistent(t0.files)
    ensures CompareRow(t, i, j + 1, checkEquality) == ComparePair(t0, i, j, checkEquality)
  {
    CompareRowUnfold(t, i, j + 1, checkEquality);
  }

  /** A failing pair fails the whole row with its error. */
  lemma CompareRowFailsAt(t: Tables, i: nat, j: nat, m: nat, checkEquality: bool, t0: Tables, err: RenameError)
    requires i < j < m <= |t.files| && AllConsistent(t.files)
    requires CompareRow(t, i, j, checkEquality) == Ok(t0)
    requires ComparePair(t0, i, j, checkEquality) == Err(err)
    ensures CompareRow(t, i, m, checkEquality) == Err(err)
  {
    CompareRowNext(t, i, j, checkEquality, t0);
    CompareRowErr(t, i, j + 1, m, checkEquality);
  }

  /** A failed row stays failed when one more pair is added. */
  lemma CompareRowPropagates(t: Tables, i: nat, m: nat, checkEquality: bool)
    requires i < |t.files| && 0 < m <= |t.files| && AllConsistent(t.files)
    requires CompareRow(t, i, m - 1, checkEquality).Err?
    ensures CompareRow(t, i, m, checkEquality) == CompareRow(t, i, m - 1, checkEquality)
  {
    assert m > i + 1;
  }

  lemma {:induction false} BuildTableErr(t: Tables, n: nat, n': nat, checkEquality: bool)
    requires n <= n' <= |t.files| && AllConsistent(t.files)
    requires BuildTable(t, n, checkEquality).Err?
    ensures BuildTable(t, n', checkEquality) == BuildTable(t, n, checkEquality)
    decreases n' - n
  {
    if n < n' {
      BuildTableErr(t, n, n' - 1, checkEquality);
      BuildTablePropagates(t, n', checkEquality);
    }
  }

  /** A failed table stays failed when one more row is added. */
  lemma BuildTablePropagates(t: Tables, n: nat, checkEquality: bool)
    requires 0 < n <= |t.files| && AllConsistent(t.files)
    requires BuildTable(t, n - 1, checkEquality).Err?
    ensures BuildTable(t, n, checkEquality) == BuildTable(t, n - 1, checkEquality)
  {
  }

}
