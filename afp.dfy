/**
 * The structured-field data model the merge engine manipulates.
 *
 * The structured-field codec (reading, writing and serialising fields) is an
 * external library; what it yields is modelled here as a sequence of records,
 * each a decoded field together with the raw bytes it was read from.
 */
module Afp {
  import opened Wrappers

  type byte = x: int | 0 <= x < 256

  /** Registered object identifier carried by an object-classification triplet. */
  type ObjId = seq<byte>

  /** Resource object types named by the merge engine. */
  datatype ObjType =
    | FormMap
    | FontCharacterSet
    | CodePage
    | CodedFont
    | Overlay
    | PageSegment
    | Ioca
    | ObjectContainer
    | OtherType(code: int)

  /** The identity of a resource: two resources are candidates for being the same iff their keys are equal. */
  datatype ResourceKey = ResourceKey(objType: ObjType, name: string, objId: Option<ObjId>)

  /** Types of a fully-qualified-name triplet that the patchers look at. */
  datatype FqnType =
    | ReplaceFirstGid
    | FontCharsetNameRef
    | CodePageNameRef
    | CodedFontNameRef
    | ResourceObjectRef
    | OtherObjectDataRef
    | DataObjectExternalRef
    | OtherFqnType(code: int)

  datatype Triplet =
    | FullyQualifiedName(fqnType: Option<FqnType>, fqName: string)
    | ObjectClassification(regObjId: ObjId)
    | OtherTriplet(id: int, data: seq<byte>)

  /** Medium-map attribute fields that only the formdef merger looks at. */
  datatype AttrKind = FGD | MMT | MMD | PGP | PGP1 | MDD | MCC | MMC | PMC | MFC | PEC

  /** One repeating group of a map coded font (format 1): a font character set, a coded font and a code page name. */
  datatype Mcf1Group = Mcf1Group(fcsName: string, cfName: string, cpName: string)

  /**
   * A decoded structured field. Only the tags the merge engine interprets are
   * distinguished; the parameters it never reads are kept as uninterpreted bytes.
   */
  datatype Field =
    | BRG(data: seq<byte>)
    | ERG(data: seq<byte>)
    | BRS(rsName: string, objType: ObjType, objId: Option<ObjId>, triplets: seq<Triplet>)
    | ERS(rsName: string)
    | BFM(data: seq<byte>)
    | EFM(data: seq<byte>)
    | BDG(data: seq<byte>)
    | EDG(data: seq<byte>)
    | BMM(mmName: string, data: seq<byte>)
    | EMM(data: seq<byte>)
    | Attr(kind: AttrKind, data: seq<byte>)
    | MMO(ovlNames: seq<string>)
    | MPO(groups: seq<seq<Triplet>>)
    | MDR(groups: seq<seq<Triplet>>)
    | MCF(groups: seq<seq<Triplet>>)
    | MCF1(mcf1Groups: seq<Mcf1Group>)
    | IMM(mmpName: string, triplets: seq<Triplet>)
    | IOB(objName: string, objType: ObjType, objId: Option<ObjId>, triplets: seq<Triplet>)
    | IPG(data: seq<byte>)
    | IPO(ovlyName: string, triplets: seq<Triplet>)
    | IPS(psegName: string, triplets: seq<Triplet>)
    | MPG(data: seq<byte>)
    | MPS(psegNames: seq<string>)
    | Other(id: int, data: seq<byte>)

  /** The key a begin-resource field denotes. */
  function KeyOfBrs(f: Field): ResourceKey
    requires f.BRS?
  {
    ResourceKey(f.objType, f.rsName, f.objId)
  }

  /** One structured field as the codec yields it: the decoded field and the raw bytes it was read from. */
  datatype Rec = Rec(field: Field, raw: seq<byte>)

  /** The bytes of a stream of records, in order. */
  function Bytes(recs: seq<Rec>): (b: seq<byte>)
    ensures |recs| == 0 ==> b == []
  {
    if |recs| == 0 then [] else Bytes(recs[..|recs| - 1]) + recs[|recs| - 1].raw
  }

  /** The byte offset at which record `i` begins (the codec's current offset after `i` records). */
  function Offset(recs: seq<Rec>, i: nat): nat
    requires i <= |recs|
  {
    |Bytes(recs[..i])|
  }

  /** A sequence is its prefix followed by its suffix. */
  lemma SplitAt<T>(s: seq<T>, k: nat)
    requires k <= |s|
    ensures s == s[..k] + s[k..]
  {
  }

  /** Record `i` ends where record `i + 1` begins. */
  lemma OffsetNext(recs: seq<Rec>, i: nat)
    requires i < |recs|
    ensures Offset(recs, i + 1) == Offset(recs, i) + |recs[i].raw|
  {
    assert recs[..i + 1][..i] == recs[..i];
  }

  /** Concatenation regrouped. */
  lemma AppendAssoc<T>(a: seq<T>, b: seq<T>, c: seq<T>)
    ensures (a + b) + c == a + (b + c)
  {
  }

  /** The bytes of a non-empty run of records end with the last record's bytes. */
  lemma BytesLast(recs: seq<Rec>)
    requires |recs| > 0
    ensures Bytes(recs) == Bytes(recs[..|recs| - 1]) + recs[|recs| - 1].raw
  {
  }

  lemma {:induction false} BytesPrefix(recs: seq<Rec>, i: nat, j: nat)
    requires i <= j <= |recs|
    ensures Offset(recs, i) <= Offset(recs, j)
    ensures Bytes(recs[..i]) == Bytes(recs[..j])[..Offset(recs, i)]
    decreases j
  {
    if i < j {
      assert recs[..j - 1] == recs[..j][..j - 1];
      assert Bytes(recs[..j]) == Bytes(recs[..j - 1]) + recs[j - 1].raw;
      BytesPrefix(recs, i, j - 1);
    }
  }

  /** A resource occurrence found by the scanner. `hash` is absent until its closing ERS was seen. */
  datatype Resource = Resource(start: nat, end: nat, ersPos: nat, content: seq<byte>, hash: Option<string>)

  /** A medium map found in the first formdef of a file. */
  datatype MediumMap = MediumMap(start: nat, end: nat, content: seq<byte>, sfs: seq<Field>, hash: Option<string>)

  /** Everything the merge engine records about one input file. */
  datatype InputFile = InputFile(
    resources: seq<ResourceKey>,
    filePos: map<ResourceKey, Resource>,
    renamings: map<ResourceKey, string>,
    renameIMM: map<string, string>,
    documentStart: nat,
    formdef: seq<Field>,
    mmNames: seq<string>,
    mediumMaps: map<string, MediumMap>)

  const EmptyFile := InputFile([], map[], map[], map[], 0, [], [], map[])

  /** The lists and maps of a file agree: every listed key has an entry and every entry is listed. */
  ghost predicate Consistent(f: InputFile)
  {
    && (forall k :: k in f.resources <==> k in f.filePos)
    && (forall n :: n in f.mmNames <==> n in f.mediumMaps)
  }

  /** Registering a new resource keeps the list and the map in step. */
  lemma ConsistentAddResource(f: InputFile, k: ResourceKey, e: Resource)
    requires Consistent(f)
    ensures Consistent(f.(resources := f.resources + [k], filePos := f.filePos[k := e]))
  {
    var g := f.(resources := f.resources + [k], filePos := f.filePos[k := e]);
    assert forall j :: j in g.resources <==> j in f.resources || j == k;
  }

  /** Replacing the entry of a listed resource keeps the list and the map in step. */
  lemma ConsistentSetResource(f: InputFile, k: ResourceKey, e: Resource)
    requires Consistent(f) && k in f.filePos
    ensures Consistent(f.(filePos := f.filePos[k := e]))
  {
  }

  /** Registering a new medium map keeps the list and the map in step. */
  lemma ConsistentAddMap(f: InputFile, n: string, m: MediumMap)
    requires Consistent(f)
    ensures Consistent(f.(mmNames := f.mmNames + [n], mediumMaps := f.mediumMaps[n := m]))
  {
    var g := f.(mmNames := f.mmNames + [n], mediumMaps := f.mediumMaps[n := m]);
    assert forall j :: j in g.mmNames <==> j in f.mmNames || j == n;
  }

  /** Replacing the entry of a listed medium map keeps the list and the map in step. */
  lemma ConsistentSetMap(f: InputFile, n: string, m: MediumMap)
    requires Consistent(f) && n in f.mediumMaps
    ensures Consistent(f.(mediumMaps := f.mediumMaps[n := m]))
  {
  }

  /** A medium map whose fields open with a BMM is recorded under that BMM's name. */
  ghost predicate MapsNamed(f: InputFile)
  {
    forall n :: n in f.mediumMaps && |f.mediumMaps[n].sfs| > 0 && f.mediumMaps[n].sfs[0].BMM? ==>
      f.mediumMaps[n].sfs[0].mmName == n
  }

  /** File `i` keeps its lists and maps in step. */
  ghost predicate ConsistentAt(files: seq<InputFile>, i: nat)
    requires i < |files|
  {
    Consistent(files[i])
  }

  /** Every file keeps its lists and maps in step. */
  ghost predicate AllConsistent(files: seq<InputFile>)
  {
    forall i: nat :: i < |files| ==> ConsistentAt(files, i)
  }

  /** One file of consistent files is consistent. */
  lemma ConsistentFile(files: seq<InputFile>, i: nat)
    requires AllConsistent(files) && i < |files|
    ensures Consistent(files[i])
  {
    assert ConsistentAt(files, i);
  }

  /** A prefix of consistent files is consistent, and so is the file after it. */
  lemma AllConsistentPrefix(files: seq<InputFile>, n: nat)
    requires AllConsistent(files) && n <= |files|
    ensures AllConsistent(files[..n])
    ensures n < |files| ==> Consistent(files[n])
  {
    var g := files[..n];
    forall i: nat | i < |g|
      ensures ConsistentAt(g, i)
    {
      assert ConsistentAt(files, i);
    }
    if n < |files| {
      assert ConsistentAt(files, n);
    }
  }

  /** A consistent file appended to consistent files keeps them consistent. */
  lemma AllConsistentAppend(files: seq<InputFile>, f: InputFile)
    requires AllConsistent(files) && Consistent(f)
    ensures AllConsistent(files + [f])
  {
    var g := files + [f];
    forall i: nat | i < |g|
      ensures ConsistentAt(g, i)
    {
      if i < |files| {
        assert ConsistentAt(files, i);
      }
    }
  }

  /** Replacing one file by a consistent one keeps every file consistent. */
  lemma AllConsistentUpdate(files: seq<InputFile>, j: nat, f: InputFile)
    requires AllConsistent(files) && j < |files| && Consistent(f)
    ensures AllConsistent(files[j := f])
  {
    var g := files[j := f];
    forall i: nat | i < |g|
      ensures ConsistentAt(g, i)
    {
      if i != j {
        assert ConsistentAt(files, i);
      }
    }
  }

  /** `m` is `m'` restricted to the keys of `m`. */
  ghost predicate SubMap<K, V>(m: map<K, V>, m': map<K, V>)
  {
    forall k :: k in m ==> k in m' && m'[k] == m[k]
  }
}
