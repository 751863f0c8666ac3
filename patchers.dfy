/**
 * The document patchers (AfpCombine.rename(...), overrideGid, renameBRSERS):
 * each structured field that names a resource or a medium map is rewritten to
 * use the file's final name, and reports whether it changed anything.
 *
 * Fields are values here: where the source sets a name on the decoded field
 * object, the model returns the updated field.
 */
module Patchers {
  import opened Wrappers
  import opened Afp

  /** Filter.STATE: whether the field must be re-encoded or its original bytes copied. */
  datatype State = Modified | Untouched

  datatype PatchError =
    | NullFqnType                    // unboxing a fully-qualified-name type that is not set
    | ShortEncodedName(name: string) // indexing the first two bytes of a name that encodes to fewer

  function StateOf(modified: bool): State
  {
    if modified then Modified else Untouched
  }

  // ---------------------------------------------------------------------------
  // overrideGid and renameBRSERS

  /** A fully-qualified name of type "replace first GID name". */
  predicate IsGid(t: Triplet)
  {
    t.FullyQualifiedName? && t.fqnType == Some(ReplaceFirstGid)
  }

  /** The index of the first replace-first-GID name at or after `k`. */
  function FirstGid(ts: seq<Triplet>, k: nat): (r: Option<nat>)
    requires k <= |ts|
    ensures r.Some? ==> k <= r.value < |ts| && IsGid(ts[r.value])
    ensures r.Some? ==> forall j :: k <= j < r.value ==> !IsGid(ts[j])
    ensures r.None? <==> forall j :: k <= j < |ts| ==> !IsGid(ts[j])
    decreases |ts| - k
  {
    if k == |ts| then None
    else if IsGid(ts[k]) then Some(k)
    else FirstGid(ts, k + 1)
  }

  /** The triplets with the first replace-first-GID name set to `name`; names of other types, or of no type, are passed over. */
  function GidOverridden(ts: seq<Triplet>, name: string): seq<Triplet>
  {
    match FirstGid(ts, 0)
    case Some(i) => ts[i := ts[i].(fqName := name)]
    case None => ts
  }

  /**
   * Overriding changes at most one triplet: the first replace-first-GID name,
   * which then carries `name`; every other triplet is as it was.
   */
  lemma GidOverriddenChanges(ts: seq<Triplet>, name: string)
    ensures var r := GidOverridden(ts, name);
            && |r| == |ts|
            && (forall j :: 0 <= j < |ts| ==> (IsGid(r[j]) <==> IsGid(ts[j])))
            && (forall j :: 0 <= j < |ts| && r[j] != ts[j] ==>
                  IsGid(ts[j]) && r[j] == ts[j].(fqName := name) && forall j' :: 0 <= j' < j ==> !IsGid(ts[j']))
            && ((exists j :: 0 <= j < |ts| && IsGid(ts[j])) ==>
                  exists j :: 0 <= j < |ts| && IsGid(r[j]) && r[j].fqName == name)
  {
    match FirstGid(ts, 0)
    case Some(i) =>
    case None =>
  }

  /** Overriding twice leaves only the second name. */
  lemma GidOverriddenTwice(ts: seq<Triplet>, a: string, b: string)
    ensures GidOverridden(GidOverridden(ts, a), b) == GidOverridden(ts, b)
  {
    var r := GidOverridden(ts, a);
    match FirstGid(ts, 0)
    case Some(i) =>
      assert FirstGid(r, 0) == Some(i) by {
        FirstGidSame(ts, r, i);
      }
    case None =>
  }

  lemma FirstGidSame(ts: seq<Triplet>, r: seq<Triplet>, i: nat)
    requires |r| == |ts| && i < |ts| && FirstGid(ts, 0) == Some(i)
    requires forall j :: 0 <= j < |ts| ==> (IsGid(r[j]) <==> IsGid(ts[j]))
    ensures FirstGid(r, 0) == Some(i)
  {
    FirstGidAt(r, i, 0);
  }

  /** overrideGid: scan for the first replace-first-GID name and set it. */
  method OverrideGid(ts: seq<Triplet>, name: string) returns (r: seq<Triplet>)
    ensures r == GidOverridden(ts, name)
  {
    var i := 0;
    while i < |ts|
      invariant 0 <= i <= |ts|
      invariant forall j :: 0 <= j < i ==> !IsGid(ts[j])
    {
      var t := ts[i];
      if t.FullyQualifiedName? && t.fqnType.Some? && t.fqnType.value == ReplaceFirstGid {
        assert FirstGid(ts, 0) == Some(i) by {
          FirstGidAt(ts, i, 0);
        }
        return ts[i := t.(fqName := name)];
      }
      i := i + 1;
    }
    assert FirstGid(ts, 0).None?;
    return ts;
  }

  /** The first replace-first-GID name is the one with none before it. */
  lemma {:induction false} FirstGidAt(ts: seq<Triplet>, i: nat, k: nat)
    requires k <= i < |ts| && IsGid(ts[i]) && forall j :: k <= j < i ==> !IsGid(ts[j])
    ensures FirstGid(ts, k) == Some(i)
    decreases i - k
  {
    if k < i {
      FirstGidAt(ts, i, k + 1);
    }
  }

  /** renameBRSERS: a BRS gets the new name and its first replace-first-GID name; an ERS gets the new name. */
  function RenameBrsErs(f: Field, newName: string): (r: Field)
    requires f.BRS? || f.ERS?
    ensures match f
      case BRS(_, ty, id, ts) => r.BRS? && KeyOfBrs(r) == ResourceKey(ty, newName, id) && r.triplets == GidOverridden(ts, newName)
      case ERS(_) => r == ERS(newName)
      case _ => true
  {
    match f
    case BRS(_, ty, id, ts) => BRS(newName, ty, id, GidOverridden(ts, newName))
    case ERS(_) => ERS(newName)
  }

  // ---------------------------------------------------------------------------
  // Lists of names: MMO (overlays) and MPS (page segments)

  /** The final name of a reference to the resource of type `t` named `n`, and whether it was renamed. */
  function RenameName(ren: map<ResourceKey, string>, t: ObjType, n: string): (string, bool)
  {
    var key := ResourceKey(t, n, None);
    if key in ren then (ren[key], true) else (n, false)
  }

  /** The repeating groups of an MMO or MPS field, each renamed on its own. */
  function RenameNames(ren: map<ResourceKey, string>, t: ObjType, ns: seq<string>): (r: (seq<string>, bool))
    ensures |r.0| == |ns|
    ensures forall i :: 0 <= i < |ns| ==> r.0[i] == RenameName(ren, t, ns[i]).0
    ensures r.1 <==> exists i :: 0 <= i < |ns| && ResourceKey(t, ns[i], None) in ren
  {
    if |ns| == 0 then ([], false)
    else
      var (init, m) := RenameNames(ren, t, ns[..|ns| - 1]);
      var (n, hit) := RenameName(ren, t, ns[|ns| - 1]);
      (init + [n], m || hit)
  }

  /** rename(file, MMO) and rename(file, MPS): the loop over the repeating groups. */
  method RenameNameList(ren: map<ResourceKey, string>, t: ObjType, ns: seq<string>) returns (out: seq<string>, modified: bool)
    ensures (out, modified) == RenameNames(ren, t, ns)
  {
    out, modified := [], false;
    var i := 0;
    while i < |ns|
      invariant 0 <= i <= |ns|
      invariant (out, modified) == RenameNames(ren, t, ns[..i])
    {
      assert ns[..i + 1][..i] == ns[..i];
      var key := ResourceKey(t, ns[i], None);
      if key in ren {
        out, modified := out + [ren[key]], true;
      } else {
        out := out + [ns[i]];
      }
      i := i + 1;
    }
    assert ns[..i] == ns;
  }

  // ---------------------------------------------------------------------------
  // Groups of triplets: MCF (fonts), MDR (data objects) and MPO (page overlays)

  datatype RefKind = FontRefs | DataObjectRefs | PageOverlayRefs

  /** The object id of the last object-classification triplet of a group: the MDR loop keeps overwriting its key. */
  function LastClassification(g: seq<Triplet>): (r: Option<ObjId>)
    ensures r.Some? <==> exists i :: 0 <= i < |g| && g[i].ObjectClassification?
    ensures r.Some? ==> exists i :: 0 <= i < |g| && g[i].ObjectClassification? && r.value == g[i].regObjId &&
                                    forall j :: i < j < |g| ==> !g[j].ObjectClassification?
  {
    if |g| == 0 then None
    else if g[|g| - 1].ObjectClassification? then Some(g[|g| - 1].regObjId)
    else LastClassification(g[..|g| - 1])
  }

  /** The resource a triplet of a group of kind `kind` refers to, if any. */
  function TripletRef(kind: RefKind, g: seq<Triplet>, t: Triplet): Result<Option<ResourceKey>, PatchError>
  {
    if !t.FullyQualifiedName? then Ok(None)
    else if t.fqnType.None? then Err(NullFqnType)
    else
      var ty, n := t.fqnType.value, t.fqName;
      match kind
      case FontRefs =>
        if ty == FontCharsetNameRef then Ok(Some(ResourceKey(FontCharacterSet, n, None)))
        else if ty == CodePageNameRef then Ok(Some(ResourceKey(CodePage, n, None)))
        else if ty == CodedFontNameRef then Ok(Some(ResourceKey(CodedFont, n, None)))
        else Ok(None)
      case DataObjectRefs =>
        if ty == ResourceObjectRef then Ok(Some(ResourceKey(Ioca, n, None)))
        else if ty == OtherObjectDataRef || ty == DataObjectExternalRef then
          match LastClassification(g)
          case Some(id) => Ok(Some(ResourceKey(ObjectContainer, n, Some(id))))
          case None => Ok(None)
        else Ok(None)
      case PageOverlayRefs =>
        if ty == ResourceObjectRef then Ok(Some(ResourceKey(Overlay, n, None))) else Ok(None)
  }

  /** A triplet whose reference is renamed gets the final name. */
  function RenameTriplet(kind: RefKind, ren: map<ResourceKey, string>, g: seq<Triplet>, t: Triplet): Result<(Triplet, bool), PatchError>
  {
    var k :- TripletRef(kind, g, t);
    if k.Some? && k.value in ren then Ok((t.(fqName := ren[k.value]), true)) else Ok((t, false))
  }

  /** A renaming hits triplet `t` of group `g`. */
  predicate Hits(kind: RefKind, ren: map<ResourceKey, string>, g: seq<Triplet>, t: Triplet)
  {
    var k := TripletRef(kind, g, t);
    k.Ok? && k.value.Some? && k.value.value in ren
  }

  /** The triplets `ts` of group `g`, in order (the classification lookup always sees the whole group). */
  function RenameGroup(kind: RefKind, ren: map<ResourceKey, string>, g: seq<Triplet>, ts: seq<Triplet>): Result<(seq<Triplet>, bool), PatchError>
  {
    if |ts| == 0 then Ok(([], false))
    else
      var (init, m) :- RenameGroup(kind, ren, g, ts[..|ts| - 1]);
      var (t, hit) :- RenameTriplet(kind, ren, g, ts[|ts| - 1]);
      Ok((init + [t], m || hit))
  }

  /**
   * A group keeps its shape, each triplet becomes its own rename, the group is
   * modified exactly when some triplet is hit, and it fails exactly when some
   * fully-qualified name has no type.
   */
  lemma {:induction false} RenameGroupSpec(kind: RefKind, ren: map<ResourceKey, string>, g: seq<Triplet>, ts: seq<Triplet>)
    ensures var r := RenameGroup(kind, ren, g, ts);
            && (r.Ok? ==> |r.value.0| == |ts|)
            && (r.Ok? ==> forall i :: 0 <= i < |ts| ==> RenameTriplet(kind, ren, g, ts[i]) == Ok((r.value.0[i], Hits(kind, ren, g, ts[i]))))
            && (r.Ok? ==> (r.value.1 <==> exists i :: 0 <= i < |ts| && Hits(kind, ren, g, ts[i])))
            && (r.Err? <==> exists i :: 0 <= i < |ts| && TripletRef(kind, g, ts[i]).Err?)
            && (r.Err? ==> r.error == NullFqnType)
  {
    if |ts| > 0 {
      var init := ts[..|ts| - 1];
      RenameGroupSpec(kind, ren, g, init);
      assert forall i :: 0 <= i < |init| ==> init[i] == ts[i];
    }
  }

  /** Once a prefix of the group fails, the whole group fails with that error. */
  lemma {:induction false} RenameGroupPrefixErr(kind: RefKind, ren: map<ResourceKey, string>, g: seq<Triplet>, ts: seq<Triplet>, n: nat)
    requires n <= |ts| && RenameGroup(kind, ren, g, ts[..n]).Err?
    ensures RenameGroup(kind, ren, g, ts) == RenameGroup(kind, ren, g, ts[..n])
    decreases |ts| - n
  {
    if n < |ts| {
      assert ts[..n + 1][..n] == ts[..n];
      RenameGroupPrefixErr(kind, ren, g, ts, n + 1);
    } else {
      assert ts[..n] == ts;
    }
  }

  /** All the repeating groups of the field. */
  function RenameGroups(kind: RefKind, ren: map<ResourceKey, string>, gs: seq<seq<Triplet>>): Result<(seq<seq<Triplet>>, bool), PatchError>
  {
    if |gs| == 0 then Ok(([], false))
    else
      var (init, m) :- RenameGroups(kind, ren, gs[..|gs| - 1]);
      var (g, hit) :- RenameGroup(kind, ren, gs[|gs| - 1], gs[|gs| - 1]);
      Ok((init + [g], m || hit))
  }

  predicate GroupHit(kind: RefKind, ren: map<ResourceKey, string>, g: seq<Triplet>)
  {
    exists i :: 0 <= i < |g| && Hits(kind, ren, g, g[i])
  }

  /** The field keeps its groups, each renamed on its own, and is modified exactly when some group is. */
  lemma {:induction false} RenameGroupsSpec(kind: RefKind, ren: map<ResourceKey, string>, gs: seq<seq<Triplet>>)
    ensures var r := RenameGroups(kind, ren, gs);
            && (r.Ok? ==> |r.value.0| == |gs|)
            && (r.Ok? ==> forall i :: 0 <= i < |gs| ==> RenameGroup(kind, ren, gs[i], gs[i]) == Ok((r.value.0[i], GroupHit(kind, ren, gs[i]))))
            && (r.Ok? ==> (r.value.1 <==> exists i :: 0 <= i < |gs| && GroupHit(kind, ren, gs[i])))
            && (r.Err? <==> exists i :: 0 <= i < |gs| && RenameGroup(kind, ren, gs[i], gs[i]).Err?)
  {
    if |gs| > 0 {
      var init := gs[..|gs| - 1];
      var last := gs[|gs| - 1];
      RenameGroupsSpec(kind, ren, init);
      RenameGroupSpec(kind, ren, last, last);
      assert forall i :: 0 <= i < |init| ==> init[i] == gs[i];
      var r0 := RenameGroups(kind, ren, init);
      if r0.Err? {
        var i :| 0 <= i < |init| && RenameGroup(kind, ren, init[i], init[i]).Err?;
        assert RenameGroup(kind, ren, gs[i], gs[i]).Err?;
      } else if RenameGroup(kind, ren, last, last).Err? {
        assert RenameGroup(kind, ren, gs[|gs| - 1], gs[|gs| - 1]).Err?;
      }
    }
  }

  lemma {:induction false} RenameGroupsPrefixErr(kind: RefKind, ren: map<ResourceKey, string>, gs: seq<seq<Triplet>>, n: nat)
    requires n <= |gs| && RenameGroups(kind, ren, gs[..n]).Err?
    ensures RenameGroups(kind, ren, gs) == RenameGroups(kind, ren, gs[..n])
    decreases |gs| - n
  {
    if n < |gs| {
      assert gs[..n + 1][..n] == gs[..n];
      RenameGroupsPrefixErr(kind, ren, gs, n + 1);
    } else {
      assert gs[..n] == gs;
    }
  }

  /**
   * The MDR key search, in the loop form of the source: the last object
   * classification of the group. It stands on its own as a model of that
   * loop; the triplet loops look keys up through `TripletRef`, which uses
   * `LastClassification`, the function this loop is proved equal to.
   */
  method FindClassification(g: seq<Triplet>) returns (id: Option<ObjId>)
    ensures id == LastClassification(g)
  {
    id := None;
    var i := 0;
    while i < |g|
      invariant 0 <= i <= |g|
      invariant id == LastClassification(g[..i])
    {
      assert g[..i + 1][..i] == g[..i];
      if g[i].ObjectClassification? {
        id := Some(g[i].regObjId);
      }
      i := i + 1;
    }
    assert g[..i] == g;
  }

  /** The inner loop of the group patchers: the triplets of one group. */
  method RenameTripletList(kind: RefKind, ren: map<ResourceKey, string>, g: seq<Triplet>)
    returns (r: Result<(seq<Triplet>, bool), PatchError>)
    ensures r == RenameGroup(kind, ren, g, g)
  {
    var ts: seq<Triplet> := [];
    var modified := false;
    var j := 0;
    while j < |g|
      invariant 0 <= j <= |g|
      invariant RenameGroup(kind, ren, g, g[..j]) == Ok((ts, modified))
    {
      assert g[..j + 1][..j] == g[..j];
      var key := TripletRef(kind, g, g[j]);
      if key.Err? {
        assert RenameGroup(kind, ren, g, g[..j + 1]) == Err(key.error);
        RenameGroupPrefixErr(kind, ren, g, g, j + 1);
        return Err(key.error);
      }
      if key.value.Some? && key.value.value in ren {
        ts, modified := ts + [g[j].(fqName := ren[key.value.value])], true;
      } else {
        ts := ts + [g[j]];
      }
      j := j + 1;
    }
    assert g[..j] == g;
    return Ok((ts, modified));
  }

  /** rename(file, MCF), rename(file, MDR) and rename(file, MPO): the loop over the repeating groups. */
  method RenameTripletGroups(kind: RefKind, ren: map<ResourceKey, string>, gs: seq<seq<Triplet>>)
    returns (r: Result<(seq<seq<Triplet>>, bool), PatchError>)
    ensures r == RenameGroups(kind, ren, gs)
  {
    var out: seq<seq<Triplet>> := [];
    var modified := false;
    var i := 0;
    while i < |gs|
      invariant 0 <= i <= |gs|
      invariant RenameGroups(kind, ren, gs[..i]) == Ok((out, modified))
    {
      assert gs[..i + 1][..i] == gs[..i];
      var g := RenameTripletList(kind, ren, gs[i]);
      if g.Err? {
        assert RenameGroups(kind, ren, gs[..i + 1]) == Err(g.error);
        RenameGroupsPrefixErr(kind, ren, gs, i + 1);
        return Err(g.error);
      }
      out, modified := out + [g.value.0], modified || g.value.1;
      i := i + 1;
    }
    assert gs[..i] == gs;
    return Ok((out, modified));
  }

  // ---------------------------------------------------------------------------
  // MCF1: names tested against the 0xFF "not set" marker of their encoding

  /**
   * The rename of one MCF1 name, given its encoded bytes: a name whose first,
   * or else second, encoded byte is 0xFF is not set and is left alone; reading
   * a byte the encoding does not have fails.
   */
  function Mcf1Name(ren: map<ResourceKey, string>, t: ObjType, n: string, enc: seq<byte>): Result<(string, bool), PatchError>
  {
    if |enc| == 0 then Err(ShortEncodedName(n))
    else if enc[0] == 0xFF then Ok((n, false))
    else if |enc| < 2 then Err(ShortEncodedName(n))
    else if enc[1] == 0xFF then Ok((n, false))
    else Ok(RenameName(ren, t, n))
  }

  /** An MCF1 name is not set when either of its first two encoded bytes is 0xFF. */
  predicate UnsetName(enc: seq<byte>)
  {
    (|enc| >= 1 && enc[0] == 0xFF) || (|enc| >= 2 && enc[1] == 0xFF)
  }

  /** An unset name is never renamed; a set one is renamed exactly when the file renames it. */
  lemma Mcf1NameRule(ren: map<ResourceKey, string>, t: ObjType, n: string, enc: seq<byte>)
    ensures UnsetName(enc) ==> Mcf1Name(ren, t, n, enc) == Ok((n, false))
    ensures |enc| >= 2 && !UnsetName(enc) ==>
              Mcf1Name(ren, t, n, enc) == Ok((if ResourceKey(t, n, None) in ren then ren[ResourceKey(t, n, None)] else n,
                                              ResourceKey(t, n, None) in ren))
    ensures Mcf1Name(ren, t, n, enc).Err? <==> |enc| == 0 || (|enc| == 1 && enc[0] != 0xFF)
  {
  }

  /** One MCF1 repeating group: font character set, then coded font, then code page. */
  function Mcf1Group'(ren: map<ResourceKey, string>, g: Mcf1Group, encode: string -> seq<byte>): Result<(Mcf1Group, bool), PatchError>
  {
    var (fcs, m1) :- Mcf1Name(ren, FontCharacterSet, g.fcsName, encode(g.fcsName));
    var (cf, m2) :- Mcf1Name(ren, CodedFont, g.cfName, encode(g.cfName));
    var (cp, m3) :- Mcf1Name(ren, CodePage, g.cpName, encode(g.cpName));
    Ok((Mcf1Group(fcs, cf, cp), m1 || m2 || m3))
  }

  function RenameMcf1Groups(ren: map<ResourceKey, string>, gs: seq<Mcf1Group>, encode: string -> seq<byte>): (r: Result<(seq<Mcf1Group>, bool), PatchError>)
    ensures r.Ok? ==> |r.value.0| == |gs|
    ensures r.Ok? ==> forall i :: 0 <= i < |gs| ==> Mcf1Group'(ren, gs[i], encode).Ok? && r.value.0[i] == Mcf1Group'(ren, gs[i], encode).value.0
    ensures r.Ok? ==> (r.value.1 <==> exists i :: 0 <= i < |gs| && Mcf1Group'(ren, gs[i], encode).value.1)
  {
    if |gs| == 0 then Ok(([], false))
    else
      var (init, m) :- RenameMcf1Groups(ren, gs[..|gs| - 1], encode);
      var (g, hit) :- Mcf1Group'(ren, gs[|gs| - 1], encode);
      Ok((init + [g], m || hit))
  }

  /** rename(file, MCF1): the loop over the repeating groups. */
  method RenameMcf1(ren: map<ResourceKey, string>, gs: seq<Mcf1Group>, encode: string -> seq<byte>)
    returns (r: Result<(seq<Mcf1Group>, bool), PatchError>)
    ensures r == RenameMcf1Groups(ren, gs, encode)
  {
    var out: seq<Mcf1Group> := [];
    var modified := false;
    var i := 0;
    while i < |gs|
      invariant 0 <= i <= |gs|
      invariant RenameMcf1Groups(ren, gs[..i], encode) == Ok((out, modified))
    {
      var g := Mcf1Group'(ren, gs[i], encode);
      if g.Err? {
        Mcf1FailsAt(ren, gs, encode, i, out, modified, g.error);
        return Err(g.error);
      }
      Mcf1Next(ren, gs, encode, i, out, modified, g.value);
      out, modified := out + [g.value.0], modified || g.value.1;
      i := i + 1;
    }
    Mcf1Whole(ren, gs, encode, i);
    return Ok((out, modified));
  }

  /** One more group: the prefix result extended by that group's result. */
  lemma Mcf1Step(ren: map<ResourceKey, string>, gs: seq<Mcf1Group>, encode: string -> seq<byte>, i: nat)
    requires i < |gs|
    ensures var r := RenameMcf1Groups(ren, gs[..i], encode);
            var g := Mcf1Group'(ren, gs[i], encode);
            RenameMcf1Groups(ren, gs[..i + 1], encode) ==
              if r.Err? then Err(r.error)
              else if g.Err? then Err(g.error)
              else Ok((r.value.0 + [g.value.0], r.value.1 || g.value.1))
  {
    assert gs[..i + 1][..i] == gs[..i];
  }

  /** A group that renames cleanly extends a successful prefix. */
  lemma Mcf1Next(ren: map<ResourceKey, string>, gs: seq<Mcf1Group>, encode: string -> seq<byte>, i: nat,
                 out: seq<Mcf1Group>, modified: bool, g: (Mcf1Group, bool))
    requires i < |gs| && RenameMcf1Groups(ren, gs[..i], encode) == Ok((out, modified))
    requires Mcf1Group'(ren, gs[i], encode) == Ok(g)
    ensures RenameMcf1Groups(ren, gs[..i + 1], encode) == Ok((out + [g.0], modified || g.1))
  {
    Mcf1Step(ren, gs, encode, i);
  }

  /** A group that fails after a successful prefix fails the whole record with its error. */
  lemma Mcf1FailsAt(ren: map<ResourceKey, string>, gs: seq<Mcf1Group>, encode: string -> seq<byte>, i: nat,
                    out: seq<Mcf1Group>, modified: bool, e: PatchError)
    requires i < |gs| && RenameMcf1Groups(ren, gs[..i], encode) == Ok((out, modified))
    requires Mcf1Group'(ren, gs[i], encode) == Err(e)
    ensures RenameMcf1Groups(ren, gs, encode) == Err(e)
  {
    Mcf1Step(ren, gs, encode, i);
    Mcf1PrefixErr(ren, gs, encode, i + 1);
  }

  /** The prefix through the last group is the whole record. */
  lemma Mcf1Whole(ren: map<ResourceKey, string>, gs: seq<Mcf1Group>, encode: string -> seq<byte>, i: nat)
    requires i == |gs|
    ensures RenameMcf1Groups(ren, gs[..i], encode) == RenameMcf1Groups(ren, gs, encode)
  {
    assert gs[..i] == gs;
  }

  lemma {:induction false} Mcf1PrefixErr(ren: map<ResourceKey, string>, gs: seq<Mcf1Group>, encode: string -> seq<byte>, n: nat)
    requires n <= |gs| && RenameMcf1Groups(ren, gs[..n], encode).Err?
    ensures RenameMcf1Groups(ren, gs, encode) == Err(RenameMcf1Groups(ren, gs[..n], encode).error)
    decreases |gs| - n
  {
    if n < |gs| {
      assert gs[..n + 1][..n] == gs[..n];
      Mcf1PrefixErr(ren, gs, encode, n + 1);
    } else {
      assert gs[..n] == gs;
    }
  }

  // ---------------------------------------------------------------------------
  // The filter: one patcher per field tag

  datatype Patched = Patched(field: Field, state: State)

  /** The filter callback of writeDocuments: the patcher for the field's tag, or no change. */
  function PatchField(file: InputFile, f: Field, encode: string -> seq<byte>): Result<Patched, PatchError>
  {
    match f
    case IMM(name, ts) =>
      if name in file.renameIMM then
        var n := file.renameIMM[name];
        Ok(Patched(IMM(n, GidOverridden(ts, n)), Modified))
      else Ok(Patched(f, Untouched))
    case IOB(name, ty, id, ts) =>
      var key := ResourceKey(ty, name, id);
      if key in file.renamings then
        var n := file.renamings[key];
        Ok(Patched(f.(objName := n, triplets := GidOverridden(ts, n)), Modified))
      else Ok(Patched(f, Untouched))
    case IPO(name, ts) =>
      var key := ResourceKey(Overlay, name, None);
      if key in file.renamings then
        var n := file.renamings[key];
        Ok(Patched(IPO(n, GidOverridden(ts, n)), Modified))
      else Ok(Patched(f, Untouched))
    case IPS(name, ts) =>
      var key := ResourceKey(PageSegment, name, None);
      if key in file.renamings then
        var n := file.renamings[key];
        Ok(Patched(IPS(n, GidOverridden(ts, n)), Modified))
      else Ok(Patched(f, Untouched))
    case MCF(gs) =>
      var (gs', m) :- RenameGroups(FontRefs, file.renamings, gs);
      Ok(Patched(MCF(gs'), StateOf(m)))
    case MDR(gs) =>
      var (gs', m) :- RenameGroups(DataObjectRefs, file.renamings, gs);
      Ok(Patched(MDR(gs'), StateOf(m)))
    case MPO(gs) =>
      var (gs', m) :- RenameGroups(PageOverlayRefs, file.renamings, gs);
      Ok(Patched(MPO(gs'), StateOf(m)))
    case MCF1(gs) =>
      var (gs', m) :- RenameMcf1Groups(file.renamings, gs, encode);
      Ok(Patched(MCF1(gs'), StateOf(m)))
    case MMO(ns) =>
      var (ns', m) := RenameNames(file.renamings, Overlay, ns);
      Ok(Patched(MMO(ns'), StateOf(m)))
    case MPS(ns) =>
      var (ns', m) := RenameNames(file.renamings, PageSegment, ns);
      Ok(Patched(MPS(ns'), StateOf(m)))
    case _ =>
      // IPG, MPG and every other tag
      Ok(Patched(f, Untouched))
  }

  /** Groups no renaming hits come back as they were. */
  lemma GroupsUntouched(kind: RefKind, ren: map<ResourceKey, string>, gs: seq<seq<Triplet>>)
    requires RenameGroups(kind, ren, gs).Ok? && !RenameGroups(kind, ren, gs).value.1
    ensures RenameGroups(kind, ren, gs).value.0 == gs
  {
    var r := RenameGroups(kind, ren, gs).value.0;
    RenameGroupsSpec(kind, ren, gs);
    forall i | 0 <= i < |gs|
      ensures r[i] == gs[i]
    {
      RenameGroupSpec(kind, ren, gs[i], gs[i]);
    }
  }

  lemma Mcf1Untouched(ren: map<ResourceKey, string>, gs: seq<Mcf1Group>, encode: string -> seq<byte>)
    requires RenameMcf1Groups(ren, gs, encode).Ok? && !RenameMcf1Groups(ren, gs, encode).value.1
    ensures RenameMcf1Groups(ren, gs, encode).value.0 == gs
  {
  }

  /** A field the filter leaves untouched is written exactly as it was read. */
  lemma UntouchedIsUnchanged(file: InputFile, f: Field, encode: string -> seq<byte>)
    requires PatchField(file, f, encode).Ok? && PatchField(file, f, encode).value.state == Untouched
    ensures PatchField(file, f, encode).value.field == f
  {
    match f {
      case MCF(gs) => GroupsUntouched(FontRefs, file.renamings, gs);
      case MDR(gs) => GroupsUntouched(DataObjectRefs, file.renamings, gs);
      case MPO(gs) => GroupsUntouched(PageOverlayRefs, file.renamings, gs);
      case MCF1(gs) => Mcf1Untouched(file.renamings, gs, encode);
      case _ =>
    }
  }

  /** The patched field keeps its tag, and the names it holds are the only parameters that change. */
  lemma PatchKeepsTag(file: InputFile, f: Field, encode: string -> seq<byte>)
    requires PatchField(file, f, encode).Ok?
    ensures var p := PatchField(file, f, encode).value.field;
            && (f.IMM? ==> p.IMM?) && (f.IOB? ==> p.IOB? && p.objType == f.objType && p.objId == f.objId)
            && (f.IPO? ==> p.IPO?) && (f.IPS? ==> p.IPS?)
            && (f.MCF? ==> p.MCF? && |p.groups| == |f.groups|)
            && (f.MDR? ==> p.MDR? && |p.groups| == |f.groups|)
            && (f.MPO? ==> p.MPO? && |p.groups| == |f.groups|)
            && (f.MCF1? ==> p.MCF1? && |p.mcf1Groups| == |f.mcf1Groups|)
            && (f.MMO? ==> p.MMO? && |p.ovlNames| == |f.ovlNames|)
            && (f.MPS? ==> p.MPS? && |p.psegNames| == |f.psegNames|)
  {
    match f {
      case MCF(gs) => RenameGroupsSpec(FontRefs, file.renamings, gs);
      case MDR(gs) => RenameGroupsSpec(DataObjectRefs, file.renamings, gs);
      case MPO(gs) => RenameGroupsSpec(PageOverlayRefs, file.renamings, gs);
      case _ =>
    }
  }

  /** A file nothing was renamed in has every field written as it was read, or fails as the source does. */
  lemma NothingRenamedUntouched(file: InputFile, f: Field, encode: string -> seq<byte>)
    requires file.renamings == map[] && file.renameIMM == map[]
    requires PatchField(file, f, encode).Ok?
    ensures PatchField(file, f, encode).value.state == Untouched
  {
    match f {
      case MCF(gs) => NoHitGroups(FontRefs, gs);
      case MDR(gs) => NoHitGroups(DataObjectRefs, gs);
      case MPO(gs) => NoHitGroups(PageOverlayRefs, gs);
      case MCF1(gs) =>
      case _ =>
    }
  }

  lemma NoHitGroups(kind: RefKind, gs: seq<seq<Triplet>>)
    requires RenameGroups(kind, map[], gs).Ok?
    ensures !RenameGroups(kind, map[], gs).value.1
  {
    RenameGroupsSpec(kind, map[], gs);
  }

  /** The patchers of the include fields (IMM, IOB, IPO, IPS): rename the field and override its GID when the file renames it. */
  method RenameInclude(file: InputFile, f: Field, encode: string -> seq<byte>) returns (p: Patched)
    requires f.IMM? || f.IOB? || f.IPO? || f.IPS?
    ensures PatchField(file, f, encode) == Ok(p)
  {
    match f {
      case IMM(name, ts) =>
        if name in file.renameIMM {
          var n := file.renameIMM[name];
          var ts' := OverrideGid(ts, n);
          return Patched(IMM(n, ts'), Modified);
        }
      case IOB(name, ty, id, ts) =>
        var key := ResourceKey(ty, name, id);
        if key in file.renamings {
          var n := file.renamings[key];
          var ts' := OverrideGid(ts, n);
          return Patched(f.(objName := n, triplets := ts'), Modified);
        }
      case IPO(name, ts) =>
        var key := ResourceKey(Overlay, name, None);
        if key in file.renamings {
          var n := file.renamings[key];
          var ts' := OverrideGid(ts, n);
          return Patched(IPO(n, ts'), Modified);
        }
      case IPS(name, ts) =>
        var key := ResourceKey(PageSegment, name, None);
        if key in file.renamings {
          var n := file.renamings[key];
          var ts' := OverrideGid(ts, n);
          return Patched(IPS(n, ts'), Modified);
        }
    }
    return Patched(f, Untouched);
  }

  /** The patchers of the map fields (MCF, MDR, MPO, MCF1, MMO, MPS): rename every reference the file renames. */
  method RenameMap(file: InputFile, f: Field, encode: string -> seq<byte>) returns (r: Result<Patched, PatchError>)
    requires f.MCF? || f.MDR? || f.MPO? || f.MCF1? || f.MMO? || f.MPS?
    ensures r == PatchField(file, f, encode)
  {
    match f {
      case MCF(gs) =>
        var g :- RenameTripletGroups(FontRefs, file.renamings, gs);
        return Ok(Patched(MCF(g.0), StateOf(g.1)));
      case MDR(gs) =>
        var g :- RenameTripletGroups(DataObjectRefs, file.renamings, gs);
        return Ok(Patched(MDR(g.0), StateOf(g.1)));
      case MPO(gs) =>
        var g :- RenameTripletGroups(PageOverlayRefs, file.renamings, gs);
        return Ok(Patched(MPO(g.0), StateOf(g.1)));
      case MCF1(gs) =>
        var g :- RenameMcf1(file.renamings, gs, encode);
        return Ok(Patched(MCF1(g.0), StateOf(g.1)));
      case MMO(ns) =>
        var ns', m := RenameNameList(file.renamings, Overlay, ns);
        return Ok(Patched(MMO(ns'), StateOf(m)));
      case MPS(ns) =>
        var ns', m := RenameNameList(file.renamings, PageSegment, ns);
        return Ok(Patched(MPS(ns'), StateOf(m)));
    }
  }

  /** The filter callback of writeDocuments, dispatching on the field's tag to its patcher. */
  method Patch(file: InputFile, f: Field, encode: string -> seq<byte>) returns (r: Result<Patched, PatchError>)
    ensures r == PatchField(file, f, encode)
  {
    if f.IMM? || f.IOB? || f.IPO? || f.IPS? {
      var p := RenameInclude(file, f, encode);
      return Ok(p);
    } else if f.MCF? || f.MDR? || f.MPO? || f.MCF1? || f.MMO? || f.MPS? {
      r := RenameMap(file, f, encode);
    } else {
      // IPG, MPG and every other tag
      return Ok(Patched(f, Untouched));
    }
  }
}
